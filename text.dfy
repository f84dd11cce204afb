/**
 * The textual side of the shortest-path demo: how a node index is rendered
 * (`Number.prototype.toString` on a non-negative integer), how a decimal
 * token is read back (`Number(token)`), how `String.prototype.split` cuts a
 * string at a separator, and the `"a->b->c"` path text built from a node
 * sequence.
 */
module Text {

  predicate IsDigit(c: char) {
    '0' <= c <= '9'
  }

  /** A non-empty string of decimal digits. */
  predicate IsDecimal(s: string) {
    |s| > 0 && forall k :: 0 <= k < |s| ==> IsDigit(s[k])
  }

  function DigitChar(d: nat): (c: char)
    requires d < 10
    ensures IsDigit(c)
  {
    ('0' as int + d) as char
  }

  /** The value of one character as a decimal digit (0 for a non-digit). */
  function DigitValue(c: char): (d: nat)
    ensures d < 10
  {
    if IsDigit(c) then c as int - '0' as int else 0
  }

  /** Decimal rendering of a natural number, as `n.toString()` gives it. */
  function NatToString(n: nat): (s: string)
    ensures IsDecimal(s)
    ensures s[0] != '0' || n == 0
    decreases n
  {
    if n < 10 then [DigitChar(n)] else NatToString(n / 10) + [DigitChar(n % 10)]
  }

  /** The value of a decimal token, as `Number(token)` reads a string of digits. */
  function ParseDecimal(s: string): nat
    decreases |s|
  {
    if |s| == 0 then 0 else 10 * ParseDecimal(s[..|s| - 1]) + DigitValue(s[|s| - 1])
  }

  lemma {:induction false} ParseDecimalOfNatToString(n: nat)
    ensures ParseDecimal(NatToString(n)) == n
    decreases n
  {
    var s := NatToString(n);
    if n >= 10 {
      assert s[..|s| - 1] == NatToString(n / 10);
      ParseDecimalOfNatToString(n / 10);
    }
  }

  lemma NatToStringInjective(m: nat, n: nat)
    requires NatToString(m) == NatToString(n)
    ensures m == n
  {
    ParseDecimalOfNatToString(m);
    ParseDecimalOfNatToString(n);
  }

  /** No character of `s` is a dash, so no separator `"->"` can start inside it. */
  predicate NoDash(s: string) {
    forall k :: 0 <= k < |s| ==> s[k] != '-'
  }

  lemma DecimalHasNoDash(s: string)
    requires IsDecimal(s)
    ensures NoDash(s)
  {
  }

  /**
   * `s.split(sep)` for a non-empty separator: the pieces between the
   * leftmost non-overlapping occurrences of `sep`, always at least one.
   */
  function Split(s: string, sep: string): (parts: seq<string>)
    requires |sep| > 0
    ensures |parts| >= 1
    decreases |s|
  {
    if |s| < |sep| then [s]
    else if s[..|sep|] == sep then [""] + Split(s[|sep|..], sep)
    else
      var rest := Split(s[1..], sep);
      [[s[0]] + rest[0]] + rest[1..]
  }

  const Arrow: string := "->"

  lemma {:induction false} SplitNoDash(t: string)
    requires NoDash(t)
    ensures Split(t, Arrow) == [t]
    decreases |t|
  {
    if |t| >= |Arrow| {
      assert t[..|Arrow|] != Arrow by { assert t[0] != '-'; }
      SplitNoDash(t[1..]);
      assert [t[0]] + t[1..] == t;
    }
  }

  lemma {:induction false} SplitTokenThenArrow(t: string, rest: string)
    requires NoDash(t)
    ensures Split(t + Arrow + rest, Arrow) == [t] + Split(rest, Arrow)
    decreases |t|
  {
    var s := t + Arrow + rest;
    if |t| == 0 {
      assert s == Arrow + rest;
      assert s[..|Arrow|] == Arrow;
      assert s[|Arrow|..] == rest;
    } else {
      assert s[..|Arrow|] != Arrow by { assert s[0] == t[0] != '-'; }
      assert s[1..] == t[1..] + Arrow + rest;
      SplitTokenThenArrow(t[1..], rest);
      assert [t[0]] + t[1..] == t;
    }
  }

  /**
   * The path text of a node sequence, built the way the source concatenates
   * it: the text of all but the last node, then `"->"`, then the last node.
   */
  function PathText(nodes: seq<nat>): string
    requires |nodes| >= 1
    decreases |nodes|
  {
    if |nodes| == 1 then NatToString(nodes[0])
    else PathText(nodes[..|nodes| - 1]) + Arrow + NatToString(nodes[|nodes| - 1])
  }

  /** The same text read from the front: the first node, `"->"`, the text of the rest. */
  lemma {:induction false} PathTextFront(nodes: seq<nat>)
    requires |nodes| >= 2
    ensures PathText(nodes) == NatToString(nodes[0]) + Arrow + PathText(nodes[1..])
    decreases |nodes|
  {
    var n := |nodes|;
    if n > 2 {
      assert nodes[..n - 1][1..] == nodes[1..][..n - 2];
      PathTextFront(nodes[..n - 1]);
      assert nodes[1..][n - 2] == nodes[n - 1];
    } else {
      assert nodes[1..] == [nodes[1]];
    }
  }

  /** Splitting a path text at `"->"` gives back one decimal token per node. */
  lemma {:induction false} SplitPathText(nodes: seq<nat>)
    requires |nodes| >= 1
    ensures |Split(PathText(nodes), Arrow)| == |nodes|
    ensures forall k :: 0 <= k < |nodes| ==> Split(PathText(nodes), Arrow)[k] == NatToString(nodes[k])
    decreases |nodes|
  {
    DecimalHasNoDash(NatToString(nodes[0]));
    if |nodes| == 1 {
      SplitNoDash(NatToString(nodes[0]));
    } else {
      PathTextFront(nodes);
      SplitTokenThenArrow(NatToString(nodes[0]), PathText(nodes[1..]));
      SplitPathText(nodes[1..]);
    }
  }
}
