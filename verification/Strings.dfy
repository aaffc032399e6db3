/** JavaScript string operations the modelled code relies on. */
module Strings {

  /** `a < b` on strings: the first differing character decides, a proper prefix comes first. */
  predicate Less(a: string, b: string) {
    if b == [] then false
    else if a == [] then true
    else a[0] < b[0] || (a[0] == b[0] && Less(a[1..], b[1..]))
  }

  lemma {:induction false} LessIsTotal(a: string, b: string)
    ensures !(Less(a, b) && Less(b, a))
    ensures Less(a, b) || a == b || Less(b, a)
    ensures !Less(a, a)
  {
    if a != [] {
      LessIsTotal(a[1..], if b == [] then [] else b[1..]);
      if b != [] && a[0] == b[0] && a[1..] == b[1..] {
        assert a == [a[0]] + a[1..] == b;
      }
    }
  }

  lemma {:induction false} LessIsTransitive(a: string, b: string, c: string)
    requires Less(a, b) && Less(b, c)
    ensures Less(a, c)
  {
    if a != [] && a[0] == b[0] == c[0] {
      LessIsTransitive(a[1..], b[1..], c[1..]);
    }
  }

  /** A shared prefix does not take part in the comparison. */
  lemma {:induction false} LessAfterCommonPrefix(p: string, a: string, b: string)
    ensures Less(p + a, p + b) <==> Less(a, b)
  {
    if p == [] {
      assert p + a == a && p + b == b;
    } else {
      assert (p + a)[1..] == p[1..] + a && (p + b)[1..] == p[1..] + b;
      LessAfterCommonPrefix(p[1..], a, b);
    }
  }

  /** Two different heads of one length decide the comparison, whatever follows them. */
  lemma {:induction false} LessByHeads(p: string, q: string, a: string, b: string)
    requires |p| == |q| && p != q
    ensures Less(p + a, q + b) <==> Less(p, q)
  {
    assert (p + a)[1..] == p[1..] + a && (q + b)[1..] == q[1..] + b;
    if p[0] == q[0] {
      assert p == [p[0]] + p[1..] && q == [q[0]] + q[1..];
      LessByHeads(p[1..], q[1..], a, b);
    }
  }

  /** Whether `d` occurs in `s` at index `i`. */
  predicate OccursAt(s: string, d: string, i: nat) {
    i + |d| <= |s| && s[i..i + |d|] == d
  }

  /** The first index of `d` in `s` from `i` on, or `|s|` when there is none. */
  function IndexFrom(s: string, d: string, i: nat): (r: nat)
    requires i <= |s| && d != []
    ensures i <= r <= |s|
    ensures r < |s| ==> OccursAt(s, d, r)
    ensures forall j :: i <= j < r ==> !OccursAt(s, d, j)
    decreases |s| - i
  {
    if i == |s| || OccursAt(s, d, i) then i else IndexFrom(s, d, i + 1)
  }

  predicate Contains(s: string, d: string)
    requires d != []
  {
    IndexFrom(s, d, 0) < |s|
  }

  /** `s.split(d)` for a non-empty separator: matches are taken left to right and never overlap. */
  function Split(s: string, d: string): (pieces: seq<string>)
    requires d != []
    ensures pieces != []
    decreases |s|
  {
    var i := IndexFrom(s, d, 0);
    if i == |s| then [s] else [s[..i]] + Split(s[i + |d|..], d)
  }

  function Join(pieces: seq<string>, d: string): string {
    if pieces == [] then ""
    else if |pieces| == 1 then pieces[0]
    else pieces[0] + d + Join(pieces[1..], d)
  }

  function Last<T>(s: seq<T>): T
    requires s != []
  {
    s[|s| - 1]
  }

  function DropLast<T>(s: seq<T>): seq<T>
    requires s != []
  {
    s[..|s| - 1]
  }

  lemma InitAndLast<T>(s: seq<T>)
    requires s != []
    ensures s == DropLast(s) + [Last(s)]
    ensures forall x :: x in s <==> x in DropLast(s) || x == Last(s)
  {
    assert s == DropLast(s) + [Last(s)];
  }

  /** An occurrence that fits inside `a` does not depend on what follows `a`. */
  lemma OccurrenceInPrefix(a: string, b: string, d: string, i: nat)
    requires i + |d| <= |a|
    ensures OccursAt(a + b, d, i) <==> OccursAt(a, d, i)
  {
    assert (a + b)[i..i + |d|] == a[i..i + |d|];
  }

  /** Joining the pieces of a split restores the text. */
  lemma {:induction false} JoinUndoesSplit(s: string, d: string)
    requires d != []
    ensures Join(Split(s, d), d) == s
    decreases |s|
  {
    var i := IndexFrom(s, d, 0);
    if i < |s| {
      var rest := s[i + |d|..];
      JoinUndoesSplit(rest, d);
      assert ([s[..i]] + Split(rest, d))[1..] == Split(rest, d);
      assert s == s[..i] + d + rest;
    }
  }

  /** The first match inside `a` is still the first match once more text follows. */
  lemma FirstIndexExtends(a: string, b: string, d: string)
    requires d != [] && IndexFrom(a, d, 0) < |a|
    ensures IndexFrom(a + b, d, 0) == IndexFrom(a, d, 0)
  {
    var i := IndexFrom(a, d, 0);
    forall j | 0 <= j <= i
      ensures OccursAt(a + b, d, j) <==> OccursAt(a, d, j)
    {
      OccurrenceInPrefix(a, b, d, j);
    }
    assert OccursAt(a + b, d, i);
  }

  lemma SplitStep(s: string, d: string)
    requires d != []
    ensures var i := IndexFrom(s, d, 0);
      Split(s, d) == if i == |s| then [s] else [s[..i]] + Split(s[i + |d|..], d)
  {
    hide IndexFrom, OccursAt;
  }

  /** No piece of a split contains the separator. */
  lemma {:induction false} PiecesLackSeparator(s: string, d: string)
    requires d != []
    ensures forall piece <- Split(s, d) :: !Contains(piece, d)
    decreases |s|
  {
    hide IndexFrom;
    var i := IndexFrom(s, d, 0);
    SplitStep(s, d);
    if i < |s| {
      PiecesLackSeparator(s[i + |d|..], d);
      HeadLacksSeparator(s, d);
    }
    hide Split;
  }

  lemma HeadLacksSeparator(s: string, d: string)
    requires d != []
    ensures !Contains(s[..IndexFrom(s, d, 0)], d)
  {
    var i := IndexFrom(s, d, 0);
    forall j | 0 <= j < i
      ensures !OccursAt(s[..i], d, j)
    {
      if j + |d| <= i {
        OccurrenceInPrefix(s[..i], s[i..], d, j);
        assert s[..i] + s[i..] == s;
      }
    }
  }

  /** Splitting can be resumed: the last piece is carried over and the rest is final. */
  lemma {:induction false} SplitResumes(a: string, b: string, d: string)
    requires d != []
    ensures Split(a + b, d) == DropLast(Split(a, d)) + Split(Last(Split(a, d)) + b, d)
    decreases |a|
  {
    hide Split, IndexFrom;
    var i := IndexFrom(a, d, 0);
    SplitStep(a, d);
    if i < |a| {
      var head, rest := a[..i], a[i + |d|..];
      FirstIndexExtends(a, b, d);
      SplitStep(a + b, d);
      assert (a + b)[..i] == head && (a + b)[i + |d|..] == rest + b;
      SplitResumes(rest, b, d);
      LastOfCons(head, Split(rest, d));
    }
  }

  lemma LastOfCons<T>(head: T, tail: seq<T>)
    requires tail != []
    ensures Last([head] + tail) == Last(tail) && DropLast([head] + tail) == [head] + DropLast(tail)
  {
  }

  /** Splitting undoes joining when no piece holds the one-character separator. */
  lemma {:induction false} SplitUndoesJoin(pieces: seq<string>, c: char)
    requires pieces != []
    requires forall k :: 0 <= k < |pieces| ==> c !in pieces[k]
    ensures Split(Join(pieces, [c]), [c]) == pieces
  {
    var s, n := Join(pieces, [c]), |pieces[0]|;
    forall j | 0 <= j < n
      ensures !OccursAt(s, [c], j)
    {
      assert s[j..j + 1] == [pieces[0][j]];
    }
    if |pieces| > 1 {
      assert OccursAt(s, [c], n);
      assert s[..n] == pieces[0] && s[n + 1..] == Join(pieces[1..], [c]);
      SplitUndoesJoin(pieces[1..], c);
    }
  }

  /** ECMA-262 WhiteSpace and LineTerminator characters. */
  predicate IsSpace(c: char) {
    || '\t' <= c <= '\r' || c == ' ' || c == '\U{A0}' || c == '\U{1680}' || '\U{2000}' <= c <= '\U{200A}'
    || c == '\U{2028}' || c == '\U{2029}' || c == '\U{202F}' || c == '\U{205F}' || c == '\U{3000}' || c == '\U{FEFF}'
  }

  /** `s.trim()` */
  function Trim(s: string): string {
    if s == [] then []
    else if IsSpace(s[0]) then Trim(s[1..])
    else if IsSpace(Last(s)) then Trim(DropLast(s))
    else s
  }

  predicate AllSpaces(s: string) {
    forall i :: 0 <= i < |s| ==> IsSpace(s[i])
  }

  /** Trimming takes spaces off both ends, all of them and nothing else. */
  lemma {:induction false} TrimMeaning(s: string) returns (before: string, after: string)
    ensures s == before + Trim(s) + after && AllSpaces(before) && AllSpaces(after)
    ensures Trim(s) != "" ==> !IsSpace(Trim(s)[0]) && !IsSpace(Last(Trim(s)))
    decreases |s|
  {
    hide IsSpace;
    before, after := "", "";
    if s != "" && IsSpace(s[0]) {
      before, after := TrimMeaning(s[1..]);
      assert s == [s[0]] + s[1..];
      before := [s[0]] + before;
    } else if s != "" && IsSpace(Last(s)) {
      before, after := TrimMeaning(DropLast(s));
      assert s == DropLast(s) + [Last(s)];
      after := after + [Last(s)];
    }
  }

  /** Upper-casing, for the ASCII letters currency codes are made of. */
  function UpperChar(c: char): char {
    if 'a' <= c <= 'z' then 'A' + (c - 'a') else c
  }

  function Upper(s: string): string {
    seq(|s|, i requires 0 <= i < |s| => UpperChar(s[i]))
  }
}
