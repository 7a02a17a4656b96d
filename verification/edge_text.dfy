/**
 * The text of a graph: decimal integers as Java prints them, one tuple per
 * edge, and the ", "-separated listing between braces.
 */
module EdgeText {
  import opened GraphBasics

  predicate IsDigit(c: char) {
    '0' <= c <= '9'
  }

  function DigitChar(d: int): (c: char)
    requires 0 <= d < 10
    ensures IsDigit(c) && c as int - '0' as int == d
  {
    ('0' as int + d) as char
  }

  /** The decimal digits of n, most significant first, without leading zeros. */
  function NatToString(n: nat): (r: string)
    ensures |r| > 0 && forall i :: 0 <= i < |r| ==> IsDigit(r[i])
    ensures |r| > 1 ==> r[0] != '0'
    decreases n
  {
    if n < 10 then [DigitChar(n)] else NatToString(n / 10) + [DigitChar(n % 10)]
  }

  /** The number a string of decimal digits denotes. */
  function DigitsValue(r: string): nat
    requires forall i :: 0 <= i < |r| ==> IsDigit(r[i])
  {
    if r == [] then 0
    else
      assert IsDigit(r[|r| - 1]);
      DigitsValue(r[..|r| - 1]) * 10 + (r[|r| - 1] as int - '0' as int)
  }

  lemma {:induction false} NatToStringRoundTrip(n: nat)
    ensures DigitsValue(NatToString(n)) == n
    decreases n
  {
    if n >= 10 {
      var r := NatToString(n);
      assert r[..|r| - 1] == NatToString(n / 10);
      NatToStringRoundTrip(n / 10);
    }
  }

  /** How Java writes an int: an optional minus sign and the decimal digits. */
  function IntToString(i: int): (r: string)
    ensures |r| > 0
    ensures forall k :: 0 <= k < |r| ==> r[k] == '-' || IsDigit(r[k])
  {
    if i < 0 then "-" + NatToString(-i) else NatToString(i)
  }

  /** Reads back what IntToString writes. */
  function ParseInt(r: string): int
    requires forall k :: 0 <= k < |r| ==> r[k] == '-' || IsDigit(r[k])
  {
    if |r| > 0 && r[0] == '-' && forall k :: 1 <= k < |r| ==> IsDigit(r[k]) then -(DigitsValue(r[1..]) as int)
    else if forall k :: 0 <= k < |r| ==> IsDigit(r[k]) then DigitsValue(r)
    else 0
  }

  /** Distinct integers are printed differently: the text of an int determines it. */
  lemma IntToStringRoundTrip(i: int)
    ensures ParseInt(IntToString(i)) == i
  {
    if i < 0 {
      NatToStringRoundTrip(-i);
      assert IntToString(i)[1..] == NatToString(-i);
    } else {
      NatToStringRoundTrip(i);
    }
  }

  /** The text of one edge: "(from,to)" when it has no cost, "(from,to,cost)" otherwise. */
  function Tuple(e: (int, int, int)): (t: string)
    ensures |t| >= 5 && t[0] == '(' && t[|t| - 1] == ')'
  {
    "(" + IntToString(e.0) + "," + IntToString(e.1)
      + (if e.2 == NO_COST then "" else "," + IntToString(e.2)) + ")"
  }

  /** The two shapes a tuple's text takes, with its separator. */
  lemma TupleText(e: (int, int, int))
    ensures e.2 == NO_COST ==>
      Tuple(e) + ", " == "(" + IntToString(e.0) + "," + IntToString(e.1) + "), "
    ensures e.2 != NO_COST ==>
      Tuple(e) + ", " == "(" + IntToString(e.0) + "," + IntToString(e.1) + "," + IntToString(e.2) + "), "
  {
  }

  function Tuples(es: seq<(int, int, int)>): (ts: seq<string>)
    ensures |ts| == |es|
  {
    if es == [] then [] else Tuples(es[..|es| - 1]) + [Tuple(es[|es| - 1])]
  }

  /** The texts joined by ", ", with no separator after the last. */
  function Join(ts: seq<string>): string {
    if ts == [] then ""
    else if |ts| == 1 then ts[0]
    else Join(ts[..|ts| - 1]) + ", " + ts[|ts| - 1]
  }

  /** Every text followed by ", ", the last one included. */
  function Terminated(ts: seq<string>): string {
    if ts == [] then "" else Terminated(ts[..|ts| - 1]) + ts[|ts| - 1] + ", "
  }

  /** Dropping the last separator of a non-empty terminated listing gives the joined one. */
  lemma {:induction false} TerminatedIsJoined(ts: seq<string>)
    requires ts != []
    ensures Terminated(ts) == Join(ts) + ", "
  {
    if |ts| > 1 {
      TerminatedIsJoined(ts[..|ts| - 1]);
    } else {
      assert ts[..0] == [];
    }
  }

  /** The joined listing of non-empty texts ends with the last text. */
  lemma JoinEndsWithLast(ts: seq<string>)
    requires ts != []
    ensures |Join(ts)| >= |ts[|ts| - 1]|
    ensures Join(ts)[|Join(ts)| - |ts[|ts| - 1]|..] == ts[|ts| - 1]
  {
  }

  /** A non-empty listing of edges ends with the ")" of its last tuple. */
  lemma JoinedEndsWithParen(es: seq<(int, int, int)>)
    requires es != []
    ensures |Join(Tuples(es))| > 0 && Join(Tuples(es))[|Join(Tuples(es))| - 1] == ')'
  {
    var ts := Tuples(es);
    JoinEndsWithLast(ts);
    var last := ts[|ts| - 1];
    assert last == Tuple(es[|es| - 1]);
    var j := Join(ts);
    assert j[|j| - |last|..][|last| - 1] == last[|last| - 1];
  }

  /**
   * Closing a terminated listing: an empty one is just "{"; from a non-empty
   * one, cutting the trailing ", " leaves "{" and the joined listing.
   */
  lemma CloseListing(es: seq<(int, int, int)>, sb: string)
    requires sb == "{" + Terminated(Tuples(es))
    ensures es == [] ==> sb == "{"
    ensures es != [] ==> |sb| >= 2 && sb[..|sb| - 2] == "{" + Join(Tuples(es))
  {
    if es != [] {
      TerminatedIsJoined(Tuples(es));
      assert sb == ("{" + Join(Tuples(es))) + ", ";
    }
  }

  /** The text of no edges is "{}"; the text of some edges ends with ")}". */
  lemma ListingEnds(es: seq<(int, int, int)>)
    ensures es == [] ==> "{" + Join(Tuples(es)) + "}" == "{}"
    ensures es != [] ==> var s := "{" + Join(Tuples(es)) + "}"; |s| >= 3 && s[|s| - 2..] == ")}"
  {
    if es != [] {
      var j := Join(Tuples(es));
      JoinedEndsWithParen(es);
      var s := "{" + j + "}";
      assert s[|s| - 2] == j[|j| - 1];
    }
  }

  lemma TerminatedAppend(es: seq<(int, int, int)>, e: (int, int, int))
    ensures Terminated(Tuples(es + [e])) == Terminated(Tuples(es)) + Tuple(e) + ", "
  {
    assert (es + [e])[..|es|] == es;
    var ts := Tuples(es + [e]);
    assert ts[..|ts| - 1] == Tuples(es);
  }

  /** Appending one tuple's text and separator to a terminated listing lists one more edge. */
  lemma ListingAppend(es: seq<(int, int, int)>, e: (int, int, int), text: string)
    requires text == Tuple(e) + ", "
    ensures "{" + Terminated(Tuples(es)) + text == "{" + Terminated(Tuples(es + [e]))
  {
    TerminatedAppend(es, e);
    OpenAppend(Terminated(Tuples(es)), Tuple(e), text);
  }

  /** Regrouping the text after "{" when one more piece is appended. */
  lemma OpenAppend(t: string, u: string, text: string)
    requires text == u + ", "
    ensures "{" + t + text == "{" + (t + u + ", ")
  {
  }
}
