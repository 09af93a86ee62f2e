/**
 * The `replicas=<ack>/<from>` request parameter as ServerUtils reads it:
 * `replicas.split("/")`, then `Integer.parseInt` of the first two fields.
 * Without the parameter, ack is the quorum of the cluster size and from
 * is the cluster size. A request is refused unless 1 <= ack <= from.
 */
module Replicas {
  import opened JavaTypes

  /**
   * `quorum(from)`: a strict majority for an odd count, exactly half for an
   * even one.
   */
  function Quorum(from: nat): (ack: nat)
    ensures from % 2 == 1 ==> 2 * ack == from + 1
    ensures from % 2 == 0 ==> 2 * ack == from
    ensures 1 <= from ==> 1 <= ack <= from
  {
    if from % 2 == 1 then from / 2 + 1 else from / 2
  }

  predicate IsDigit(c: char)
  {
    '0' <= c <= '9'
  }

  predicate AllDigits(s: string)
  {
    forall i :: 0 <= i < |s| ==> IsDigit(s[i])
  }

  /** The number a string of decimal digits denotes. */
  function DigitsValue(d: string): nat
    requires AllDigits(d)
  {
    if |d| == 0 then 0
    else DigitsValue(d[..|d| - 1]) * 10 + (d[|d| - 1] as int - '0' as int)
  }

  /** The digits after an optional leading sign. */
  function Unsigned(s: string): string
  {
    if |s| > 0 && (s[0] == '-' || s[0] == '+') then s[1..] else s
  }

  /** The value of a sign and digits, before the range check. */
  function LiteralValue(s: string): int
    requires AllDigits(Unsigned(s))
  {
    if |s| > 0 && s[0] == '-' then 0 - DigitsValue(Unsigned(s)) as int else DigitsValue(Unsigned(s))
  }

  /** What `Integer.parseInt` accepts (ASCII digits): a sign, at least one digit, an int value. */
  predicate IsIntLiteral(s: string)
  {
    && |Unsigned(s)| > 0
    && AllDigits(Unsigned(s))
    && INT_MIN <= LiteralValue(s) <= INT_MAX
  }

  /** `Integer.parseInt(s)` on an accepted literal. */
  function ParseInt(s: string): (x: Int32)
    requires IsIntLiteral(s)
    ensures x < 0 ==> s[0] == '-'
  {
    LiteralValue(s)
  }

  /**
   * The '/'-separated fields of s, empty ones included. Java's split drops
   * trailing empty fields, which never changes the first two fields when both
   * are numbers.
   */
  function Fields(s: string): (fields: seq<string>)
    ensures |fields| >= 1
  {
    if |s| == 0 then [""]
    else if s[0] == '/' then [""] + Fields(s[1..])
    else
      var rest := Fields(s[1..]);
      [[s[0]] + rest[0]] + rest[1..]
  }

  /** The parameter values the source can parse; anything else throws there. */
  predicate WellFormedReplicas(replicas: string)
  {
    var fields := Fields(replicas);
    |fields| >= 2 && IsIntLiteral(fields[0]) && IsIntLiteral(fields[1])
  }

  /** The (ack, from) pair `processDirect` works with. */
  function AckFrom(replicas: Option<string>, clusterSize: nat): (r: (int, int))
    requires replicas.Some? ==> WellFormedReplicas(replicas.value)
    ensures replicas.None? ==> r == (Quorum(clusterSize), clusterSize)
  {
    if replicas.None? then (Quorum(clusterSize), clusterSize)
    else
      var fields := Fields(replicas.value);
      (ParseInt(fields[0]), ParseInt(fields[1]))
  }

  /** The check after parsing: anything but 1 <= ack <= from is a bad request. */
  predicate Acceptable(ack: int, from: int)
  {
    !(ack < 1 || ack > from)
  }

  /** Without the parameter the request is never refused, as long as the cluster has a node. */
  lemma DefaultIsAcceptable(clusterSize: nat)
    requires clusterSize >= 1
    ensures var (ack, from) := AckFrom(None, clusterSize); Acceptable(ack, from) && from == clusterSize
  {
  }

  // Decimal rendering, to state what the parser reads back.

  function DigitChar(d: nat): (c: char)
    requires d < 10
    ensures IsDigit(c) && c as int - '0' as int == d
  {
    ('0' as int + d) as char
  }

  /** The decimal digits of n, without leading zeros. */
  function Decimal(n: nat): (s: string)
    ensures |s| > 0 && AllDigits(s)
    ensures '/' !in s
  {
    if n < 10 then [DigitChar(n)] else Decimal(n / 10) + [DigitChar(n % 10)]
  }

  lemma {:induction false} DecimalValue(n: nat)
    ensures DigitsValue(Decimal(n)) == n
  {
    if n >= 10 {
      var s := Decimal(n);
      assert s[..|s| - 1] == Decimal(n / 10);
      DecimalValue(n / 10);
    }
  }

  lemma {:induction false} FieldsWithoutSlash(s: string)
    requires '/' !in s
    ensures Fields(s) == [s]
  {
    if |s| > 0 {
      FieldsWithoutSlash(s[1..]);
      assert [s[0]] + s[1..] == s;
    }
  }

  lemma {:induction false} FieldsAfterSlash(a: string, rest: string)
    requires '/' !in a
    ensures Fields(a + "/" + rest) == [a] + Fields(rest)
  {
    if |a| == 0 {
      assert a + "/" + rest == "/" + rest;
      assert ("/" + rest)[1..] == rest;
    } else {
      var s := a + "/" + rest;
      assert s[1..] == a[1..] + "/" + rest;
      FieldsAfterSlash(a[1..], rest);
      assert [a[0]] + a[1..] == a;
    }
  }

  /** The parser reads back `<ack>/<from>` written in decimal, for every non-negative int pair. */
  lemma ParseRoundTrip(ack: nat, from: nat)
    requires ack <= INT_MAX && from <= INT_MAX
    ensures WellFormedReplicas(Decimal(ack) + "/" + Decimal(from))
    ensures AckFrom(Some(Decimal(ack) + "/" + Decimal(from)), 0) == (ack, from)
  {
    FieldsAfterSlash(Decimal(ack), Decimal(from));
    FieldsWithoutSlash(Decimal(from));
    DecimalValue(ack);
    DecimalValue(from);
    assert Unsigned(Decimal(ack)) == Decimal(ack);
    assert Unsigned(Decimal(from)) == Decimal(from);
  }
}
