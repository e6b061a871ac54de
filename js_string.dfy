/** The JavaScript `String` built-ins that the renderer and the prompt
    builder rely on, written out as functions on `seq<char>`:
    `trim`, `startsWith`, `indexOf`, `replace` with a string pattern,
    `split` with a non-empty string separator, `Array.prototype.join`
    and the conversion of an integer to its decimal text. */
module JsString {
  import opened Wrappers

  /** The characters `String.prototype.trim` removes: the ECMAScript
      WhiteSpace set (tab, vertical tab, form feed, space, no-break space,
      byte-order mark and the Unicode space separators) and the
      LineTerminator set. */
  predicate IsTrimmable(c: char) {
    || c == '\t' || c == '\U{000B}' || c == '\U{000C}' || c == ' '
    || c == '\U{00A0}' || c == '\U{FEFF}' || c == '\U{1680}'
    || ('\U{2000}' <= c <= '\U{200A}')
    || c == '\U{202F}' || c == '\U{205F}' || c == '\U{3000}'
    || IsLineTerminator(c)
  }

  /** The characters a regular-expression `.` does not match. */
  predicate IsLineTerminator(c: char) {
    c == '\n' || c == '\r' || c == '\U{2028}' || c == '\U{2029}'
  }

  function TrimStart(s: string): (r: string)
    ensures |r| <= |s| && r == s[|s| - |r|..]
    ensures forall k :: 0 <= k < |s| - |r| ==> IsTrimmable(s[k])
    ensures r == [] || !IsTrimmable(r[0])
    decreases |s|
  {
    if s != [] && IsTrimmable(s[0]) then TrimStart(s[1..]) else s
  }

  function TrimEnd(s: string): (r: string)
    ensures |r| <= |s| && r == s[..|r|]
    ensures forall k :: |r| <= k < |s| ==> IsTrimmable(s[k])
    ensures r == [] || !IsTrimmable(r[|r| - 1])
    decreases |s|
  {
    if s != [] && IsTrimmable(s[|s| - 1]) then TrimEnd(s[..|s| - 1]) else s
  }

  /** `s.trim()`: the longest middle part of `s` that neither starts nor
      ends with a trimmable character. */
  function Trim(s: string): (r: string)
    ensures |r| <= |s|
    ensures r == [] || (!IsTrimmable(r[0]) && !IsTrimmable(r[|r| - 1]))
    ensures |r| <= |TrimStart(s)| <= |s|
    ensures r == s[|s| - |TrimStart(s)|..|s| - |TrimStart(s)| + |r|]
    ensures forall k :: 0 <= k < |s| - |TrimStart(s)| ==> IsTrimmable(s[k])
    ensures forall k :: |s| - |TrimStart(s)| + |r| <= k < |s| ==> IsTrimmable(s[k])
  {
    TrimEnd(TrimStart(s))
  }

  /** Trimming removes only trimmable characters: every other character
      of `s` survives, so `Trim(s)` is empty exactly when all of `s` is
      trimmable. */
  lemma TrimEmptyIff(s: string)
    ensures Trim(s) == [] <==> forall k :: 0 <= k < |s| ==> IsTrimmable(s[k])
  {
    var t := TrimStart(s);
    assert t == [] || t[0] == s[|s| - |t|];
    forall k | 0 <= k < |t| ensures t[k] == s[|s| - |t| + k] {
    }
  }

  /** Trimming twice is trimming once. */
  lemma TrimIdempotent(s: string)
    ensures Trim(Trim(s)) == Trim(s)
  {
    var r := Trim(s);
    assert TrimStart(r) == r;
    assert TrimEnd(r) == r;
  }

  /** Indentation in front of a line whose text neither starts nor ends
      with a trimmable character is exactly what trimming removes. */
  lemma TrimPadded(pad: string, x: string)
    requires forall k :: 0 <= k < |pad| ==> IsTrimmable(pad[k])
    requires x != [] && !IsTrimmable(x[0]) && !IsTrimmable(x[|x| - 1])
    ensures Trim(pad + x) == x
  {
    var s := pad + x;
    var t := TrimStart(s);
    assert s[|pad|] == x[0];
    assert forall k :: 0 <= k < |pad| ==> s[k] == pad[k];
    assert |s| - |t| == |pad|;
    assert t == x;
    var r := TrimEnd(t);
    assert |r| == |x|;
    assert r == x;
  }

  /** Trimming keeps a prefix that neither starts nor ends with a
      trimmable character. */
  lemma TrimKeepsPrefix(s: string, p: string)
    requires |p| <= |s| && s[..|p|] == p
    requires p != [] && !IsTrimmable(p[0]) && !IsTrimmable(p[|p| - 1])
    ensures |p| <= |Trim(s)| && Trim(s)[..|p|] == p
  {
    var r := Trim(s);
    assert s[0] == p[0];
    assert |s| - |TrimStart(s)| == 0;
    assert s[|p| - 1] == p[|p| - 1];
    assert |p| <= |r|;
    assert r[..|p|] == s[..|p|];
  }

  /** `s.startsWith(p)`. */
  predicate StartsWith(s: string, p: string) {
    |p| <= |s| && s[..|p|] == p
  }

  /** `pat` occurs in `s` at index `k`. */
  predicate OccursAt(s: string, pat: string, k: int) {
    0 <= k && k + |pat| <= |s| && s[k..k + |pat|] == pat
  }

  /** An occurrence stays where it is when text is appended... */
  lemma OccursAtAppend(s: string, t: string, pat: string, k: int)
    requires OccursAt(s, pat, k)
    ensures OccursAt(s + t, pat, k)
  {
    assert (s + t)[k..k + |pat|] == s[k..k + |pat|];
  }

  /** ...and moves by the length of text prepended. */
  lemma OccursAtPrepend(t: string, s: string, pat: string, k: int)
    requires OccursAt(s, pat, k)
    ensures OccursAt(t + s, pat, |t| + k)
  {
    assert (t + s)[|t| + k..|t| + k + |pat|] == s[k..k + |pat|];
  }

  /** The first index at or after `from` where `pat` occurs. */
  function IndexOfFrom(s: string, pat: string, from: nat): (r: Option<nat>)
    ensures r.Some? ==> from <= r.value && OccursAt(s, pat, r.value)
    ensures r.Some? ==> forall k :: from <= k < r.value ==> !OccursAt(s, pat, k)
    ensures r.None? ==> forall k :: from <= k ==> !OccursAt(s, pat, k)
    decreases |s| - from
  {
    if from + |pat| > |s| then None
    else if s[from..from + |pat|] == pat then Some(from)
    else IndexOfFrom(s, pat, from + 1)
  }

  /** `s.indexOf(pat)`, with `None` for JavaScript's -1. */
  function IndexOf(s: string, pat: string): (r: Option<nat>)
    ensures r.Some? ==> OccursAt(s, pat, r.value)
    ensures r.Some? ==> forall k :: k < r.value ==> !OccursAt(s, pat, k)
    ensures r.None? ==> forall k :: !OccursAt(s, pat, k)
  {
    IndexOfFrom(s, pat, 0)
  }

  /** `s.replace(pat, rep)` with a string pattern: only the first
      occurrence is replaced (`rep` is taken literally; the model never
      passes a replacement holding `$`). */
  function ReplaceFirst(s: string, pat: string, rep: string): string {
    match IndexOf(s, pat)
    case None => s
    case Some(k) => s[..k] + rep + s[k + |pat|..]
  }

  /** Replacing the first occurrence of a prefix removes that prefix. */
  lemma ReplacePrefix(s: string, p: string)
    requires StartsWith(s, p)
    ensures ReplaceFirst(s, p, "") == s[|p|..]
  {
    assert OccursAt(s, p, 0);
  }

  /** `s.split(sep)` for a non-empty separator: the pieces between the
      occurrences found by a left-to-right, non-overlapping search. */
  function Split(s: string, sep: string): (r: seq<string>)
    requires sep != []
    ensures |r| >= 1
    decreases |s|
  {
    match IndexOf(s, sep)
    case None => [s]
    case Some(k) => [s[..k]] + Split(s[k + |sep|..], sep)
  }

  /** Joining the pieces of a split with the same separator gives back
      the text, and no piece holds the separator: the pieces are the text
      between the separators. */
  lemma {:induction false} SplitJoinRoundTrip(s: string, sep: string)
    requires sep != []
    ensures Join(Split(s, sep), sep) == s
    ensures forall i :: 0 <= i < |Split(s, sep)| ==> IndexOf(Split(s, sep)[i], sep).None?
    decreases |s|
  {
    match IndexOf(s, sep)
    case None =>
    case Some(k) =>
      var rest := Split(s[k + |sep|..], sep);
      SplitJoinRoundTrip(s[k + |sep|..], sep);
      assert Split(s, sep) == [s[..k]] + rest;
      assert Join([s[..k]] + rest, sep) == s[..k] + sep + Join(rest, sep);
      assert s == s[..k] + sep + s[k + |sep|..];
      forall j | 0 <= j < k ensures !OccursAt(s[..k], sep, j) {
        assert !OccursAt(s, sep, j);
        if j + |sep| <= k {
          assert s[..k][j..j + |sep|] == s[j..j + |sep|];
        }
      }
  }

  /** `pieces.join(sep)`. */
  function Join(pieces: seq<string>, sep: string): string
    decreases |pieces|
  {
    if |pieces| == 0 then ""
    else if |pieces| == 1 then pieces[0]
    else pieces[0] + sep + Join(pieces[1..], sep)
  }

  /** Joining two non-empty lists is joining each and putting one
      separator between them. */
  lemma {:induction false} JoinAppend(a: seq<string>, b: seq<string>, sep: string)
    requires a != [] && b != []
    ensures Join(a + b, sep) == Join(a, sep) + sep + Join(b, sep)
    decreases |a|
  {
    if |a| == 1 {
      assert (a + b)[1..] == b;
    } else {
      assert (a + b)[1..] == a[1..] + b;
      JoinAppend(a[1..], b, sep);
    }
  }

  /** Text written in front of a join lands in front of its first piece. */
  lemma JoinPrefixFirst(p: string, pieces: seq<string>, sep: string)
    requires pieces != []
    ensures p + Join(pieces, sep) == Join([p + pieces[0]] + pieces[1..], sep)
  {
    var q := [p + pieces[0]] + pieces[1..];
    assert q[1..] == pieces[1..];
  }

  /** A piece in the middle of a join sits between two separators. */
  lemma JoinMiddle(a: seq<string>, x: string, b: seq<string>, sep: string)
    requires a != [] && b != []
    ensures Join(a + [x] + b, sep) == Join(a, sep) + sep + x + sep + Join(b, sep)
  {
    JoinAppend(a, [x] + b, sep);
    assert a + [x] + b == a + ([x] + b);
    assert ([x] + b)[1..] == b;
  }

  /** A piece quoted in the middle of a join can be found in the joined
      text, right after its opening quote. */
  lemma QuotedInJoin(a: seq<string>, before: string, x: string, after: string, b: seq<string>, sep: string)
    requires a != [] && b != []
    ensures OccursAt(Join(a + [before + x + after] + b, sep), x, |Join(a, sep)| + |sep| + |before|)
  {
    var line := before + x + after;
    JoinMiddle(a, line, b, sep);
    assert OccursAt(x, x, 0);
    OccursAtPrepend(before, x, x, 0);
    OccursAtAppend(before + x, after, x, |before|);
    OccursAtPrepend(Join(a, sep) + sep, line, x, |before|);
    OccursAtAppend(Join(a, sep) + sep + line, sep + Join(b, sep), x, |Join(a, sep)| + |sep| + |before|);
    assert Join(a, sep) + sep + line + sep + Join(b, sep) == Join(a, sep) + sep + line + (sep + Join(b, sep));
  }

  /** Text written between two joins, in front of a third, splices the
      lists: the prefix lands on the first piece of the middle list. */
  lemma JoinSplice(a: seq<string>, p: string, b: seq<string>, c: seq<string>, sep: string)
    requires a != [] && b != [] && c != []
    ensures Join(a, sep) + sep + p + Join(b, sep) + sep + Join(c, sep)
         == Join(a + [p + b[0]] + b[1..] + c, sep)
  {
    var m := [p + b[0]] + b[1..];
    assert a + [p + b[0]] + b[1..] == a + m;
    JoinPrefixFirst(p, b, sep);
    JoinAppend(a, m, sep);
    JoinAppend(a + m, c, sep);
  }

  /** The plain concatenation of `pieces` (`join('')`). */
  function Concat(pieces: seq<string>): string
    decreases |pieces|
  {
    if pieces == [] then "" else pieces[0] + Concat(pieces[1..])
  }

  /** `s` with every occurrence of `pat` removed, scanning left to right
      one character at a time and skipping a whole occurrence when one
      starts at the current position. */
  function RemoveAll(s: string, pat: string): string
    requires pat != []
    decreases |s|
  {
    if s == [] then ""
    else if StartsWith(s, pat) then RemoveAll(s[|pat|..], pat)
    else [s[0]] + RemoveAll(s[1..], pat)
  }

  /** The number of non-overlapping occurrences of `pat` in `s` found by
      the same left-to-right scan. */
  function CountOccurrences(s: string, pat: string): nat
    requires pat != []
    decreases |s|
  {
    if s == [] then 0
    else if StartsWith(s, pat) then 1 + CountOccurrences(s[|pat|..], pat)
    else CountOccurrences(s[1..], pat)
  }

  /** The scan from `from` meets no occurrence before `k`, so it reaches
      `k` having kept `s[from..k]` unchanged. */
  lemma {:induction false} ScanUpTo(s: string, pat: string, from: nat, k: nat)
    requires pat != [] && from <= k <= |s|
    requires forall j :: from <= j < k ==> !OccursAt(s, pat, j)
    ensures RemoveAll(s[from..], pat) == s[from..k] + RemoveAll(s[k..], pat)
    ensures CountOccurrences(s[from..], pat) == CountOccurrences(s[k..], pat)
    decreases k - from
  {
    if from < k {
      var t := s[from..];
      assert !StartsWith(t, pat) by {
        if |pat| <= |t| {
          assert t[..|pat|] == s[from..from + |pat|];
        }
        assert !OccursAt(s, pat, from);
      }
      assert t[1..] == s[from + 1..];
      ScanUpTo(s, pat, from + 1, k);
      assert s[from..k] == [s[from]] + s[from + 1..k];
    }
  }

  /** When the scan finds nothing, it removes nothing and counts nothing. */
  lemma {:induction false} ScanNone(s: string, pat: string)
    requires pat != []
    requires IndexOf(s, pat).None?
    ensures RemoveAll(s, pat) == s
    ensures CountOccurrences(s, pat) == 0
  {
    ScanUpTo(s, pat, 0, |s|);
    assert s[0..] == s;
    assert s[|s|..] == [];
  }

  /** At the first occurrence `k`, the scan keeps `s[..k]`, skips the
      occurrence and goes on after it. */
  lemma {:induction false} ScanFirst(s: string, pat: string, k: nat)
    requires pat != []
    requires IndexOf(s, pat) == Some(k)
    ensures RemoveAll(s, pat) == s[..k] + RemoveAll(s[k + |pat|..], pat)
    ensures CountOccurrences(s, pat) == 1 + CountOccurrences(s[k + |pat|..], pat)
  {
    ScanUpTo(s, pat, 0, k);
    assert s[0..] == s;
    var t := s[k..];
    assert t[..|pat|] == pat;
    assert t[|pat|..] == s[k + |pat|..];
  }

  /** Splitting on `pat` gives one more piece than there are occurrences
      of `pat`, and the pieces put back together without `pat` give `s`
      with every `pat` removed. */
  lemma {:induction false} SplitPieces(s: string, pat: string)
    requires pat != []
    ensures |Split(s, pat)| == CountOccurrences(s, pat) + 1
    ensures Concat(Split(s, pat)) == RemoveAll(s, pat)
    decreases |s|
  {
    match IndexOf(s, pat)
    case None =>
      ScanNone(s, pat);
    case Some(k) =>
      var after := s[k + |pat|..];
      var rest := Split(after, pat);
      assert Split(s, pat) == [s[..k]] + rest;
      ScanFirst(s, pat, k);
      SplitPieces(after, pat);
      assert ([s[..k]] + rest)[1..] == rest;
      calc {
        Concat(Split(s, pat));
        Concat([s[..k]] + rest);
        s[..k] + Concat(rest);
        s[..k] + RemoveAll(after, pat);
        RemoveAll(s, pat);
      }
  }

  /** A piece without the one-character separator `c`, followed by `c`
      and more text, is what `split` returns first. */
  lemma SplitAtFirst(p: string, c: char, rest: string)
    requires c !in p
    ensures Split(p + [c] + rest, [c]) == [p] + Split(rest, [c])
  {
    var s := p + [c] + rest;
    assert OccursAt(s, [c], |p|);
    assert forall k :: k < |p| ==> !OccursAt(s, [c], k) by {
      forall k | 0 <= k < |p| ensures !OccursAt(s, [c], k) {
        assert s[k] == p[k];
      }
    }
    assert IndexOf(s, [c]) == Some(|p|);
    assert s[..|p|] == p;
    assert s[|p| + 1..] == rest;
  }

  /** Text without the one-character separator `c` splits into itself. */
  lemma SplitNone(p: string, c: char)
    requires c !in p
    ensures Split(p, [c]) == [p]
  {
    forall k | 0 <= k < |p| ensures !OccursAt(p, [c], k) {
      assert p[k..k + 1] == [p[k]];
    }
  }

  /** Splitting on a one-character separator undoes joining on it, as long
      as no piece holds that character: `join` then `split` gives back the
      same pieces, one per element. */
  lemma {:induction false} SplitJoin(pieces: seq<string>, c: char)
    requires |pieces| >= 1
    requires forall i :: 0 <= i < |pieces| ==> c !in pieces[i]
    ensures Split(Join(pieces, [c]), [c]) == pieces
    decreases |pieces|
  {
    if |pieces| == 1 {
      SplitNone(pieces[0], c);
    } else {
      SplitJoin(pieces[1..], c);
      assert Join(pieces, [c]) == pieces[0] + [c] + Join(pieces[1..], [c]);
      SplitAtFirst(pieces[0], c, Join(pieces[1..], [c]));
    }
  }

  /** A piece the search for `[c]` finds nothing in does not hold `c`. */
  lemma NotFoundNotIn(p: string, c: char)
    requires IndexOf(p, [c]).None?
    ensures c !in p
  {
    forall k | 0 <= k < |p| ensures p[k] != c {
      assert p[k..k + 1] == [p[k]];
      assert !OccursAt(p, [c], k);
    }
  }

  /** Joining two or more pieces puts the first piece and `sep` in front
      of the join of the others. */
  lemma JoinFront(pieces: seq<string>, sep: string, rest: string)
    requires |pieces| >= 2
    ensures Join(pieces, sep) + sep + rest == pieces[0] + sep + (Join(pieces[1..], sep) + sep + rest)
  {
  }

  /** Text that starts with joined pieces free of `c`, then `c`, splits
      into those pieces followed by the pieces of the rest. */
  lemma {:induction false} SplitJoinedPrefix(pieces: seq<string>, c: char, rest: string)
    requires |pieces| >= 1
    requires forall i :: 0 <= i < |pieces| ==> c !in pieces[i]
    ensures Split(Join(pieces, [c]) + [c] + rest, [c]) == pieces + Split(rest, [c])
    decreases |pieces|
  {
    if |pieces| == 1 {
      SplitAtFirst(pieces[0], c, rest);
    } else {
      var tail := Join(pieces[1..], [c]) + [c] + rest;
      JoinFront(pieces, [c], rest);
      SplitAtFirst(pieces[0], c, tail);
      SplitJoinedPrefix(pieces[1..], c, rest);
      calc {
        Split(Join(pieces, [c]) + [c] + rest, [c]);
        Split(pieces[0] + [c] + tail, [c]);
        [pieces[0]] + Split(tail, [c]);
        [pieces[0]] + (pieces[1..] + Split(rest, [c]));
        { assert pieces == [pieces[0]] + pieces[1..]; }
        pieces + Split(rest, [c]);
      }
    }
  }

  /** Splitting text made of two parts joined by the one-character
      separator `c` gives the pieces of each part, the first part's
      pieces first. */
  lemma SplitAppend(a: string, c: char, b: string)
    ensures Split(a + [c] + b, [c]) == Split(a, [c]) + Split(b, [c])
  {
    var pieces := Split(a, [c]);
    SplitJoinRoundTrip(a, [c]);
    forall i | 0 <= i < |pieces| ensures c !in pieces[i] {
      NotFoundNotIn(pieces[i], c);
    }
    SplitJoinedPrefix(pieces, c, b);
  }

  /** The decimal digit for `d`. */
  function Digit(d: nat): char
    requires d < 10
  {
    "0123456789"[d]
  }

  function NatToString(n: nat): (r: string)
    ensures r != []
    ensures forall i :: 0 <= i < |r| ==> '0' <= r[i] <= '9'
    decreases n
  {
    if n < 10 then [Digit(n)] else NatToString(n / 10) + [Digit(n % 10)]
  }

  /** The text JavaScript gives an integral number in a template literal:
      its decimal digits, with a leading `-` when it is negative. */
  function IntToString(n: int): (r: string)
    ensures r != [] && '\n' !in r
  {
    if n < 0 then "-" + NatToString(-n) else NatToString(n)
  }

  /** The value of a string of decimal digits. */
  function DecimalValue(s: string): nat
    requires forall i :: 0 <= i < |s| ==> '0' <= s[i] <= '9'
    decreases |s|
  {
    if s == [] then 0
    else 10 * DecimalValue(s[..|s| - 1]) + (s[|s| - 1] - '0') as nat
  }

  /** Reading the digits back gives the number. */
  lemma {:induction false} NatToStringValue(n: nat)
    ensures DecimalValue(NatToString(n)) == n
    decreases n
  {
    var r := NatToString(n);
    if n >= 10 {
      NatToStringValue(n / 10);
      assert r[..|r| - 1] == NatToString(n / 10);
    }
  }
}
