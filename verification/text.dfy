/**
 * The string operations of JavaScript that the terminal service and the file
 * utilities rely on, over ASCII: white-space tokenising (`trim` followed by
 * `split(/\s+/)`), `join`, `split` on a separator, `indexOf`, `includes`,
 * `startsWith`, `replace` of the first occurrence, `toLowerCase` and number
 * formatting.
 */
module Text {
  import opened Wrappers

  /** The white-space characters of `\s` and `trim`, restricted to ASCII. */
  predicate IsSpace(c: char) {
    c == ' ' || c == '\t' || c == '\n' || c == '\r' || c == '\U{0B}' || c == '\U{0C}'
  }

  predicate NoSpace(w: string) {
    forall i :: 0 <= i < |w| ==> !IsSpace(w[i])
  }

  /** Length of the longest prefix of `s` free of white space. */
  function WordEnd(s: string): (n: nat)
    ensures n <= |s|
    ensures forall i :: 0 <= i < n ==> !IsSpace(s[i])
    ensures n < |s| ==> IsSpace(s[n])
  {
    if s == [] || IsSpace(s[0]) then 0 else 1 + WordEnd(s[1..])
  }

  /** The maximal runs of non-white-space characters of `s`, in order. */
  function Words(s: string): (ws: seq<string>)
    ensures forall k :: 0 <= k < |ws| ==> ws[k] != [] && NoSpace(ws[k])
    decreases |s|
  {
    if s == [] then []
    else if IsSpace(s[0]) then Words(s[1..])
    else
      var n := WordEnd(s);
      [s[..n]] + Words(s[n..])
  }

  /**
   * `line.trim().split(/\s+/)`: the words of the line, or the single empty
   * token when the line is blank.
   */
  function Tokens(line: string): (parts: seq<string>)
    ensures |parts| >= 1
    ensures parts != [""] ==> parts == Words(line)
    ensures parts == [""] <==> Words(line) == []
    ensures parts != [""] ==> forall k :: 0 <= k < |parts| ==> parts[k] != [] && NoSpace(parts[k])
  {
    var ws := Words(line);
    if ws == [] then [""] else assert ws[0] != []; ws
  }

  /** `parts.join(sep)`. */
  function JoinWith(parts: seq<string>, sep: string): string {
    if parts == [] then ""
    else if |parts| == 1 then parts[0]
    else parts[0] + sep + JoinWith(parts[1..], sep)
  }

  lemma {:induction false} JoinWithSnoc(parts: seq<string>, last: string, sep: string)
    requires parts != []
    ensures JoinWith(parts + [last], sep) == JoinWith(parts, sep) + sep + last
    decreases |parts|
  {
    if |parts| == 1 {
      assert (parts + [last])[1..] == [last];
    } else {
      assert (parts + [last])[1..] == parts[1..] + [last];
      JoinWithSnoc(parts[1..], last, sep);
    }
  }

  /** A joined text starts with its first part. */
  lemma JoinWithStartsWith(parts: seq<string>, sep: string)
    requires parts != []
    ensures |parts[0]| <= |JoinWith(parts, sep)|
    ensures JoinWith(parts, sep)[..|parts[0]|] == parts[0]
  {
    if |parts| > 1 {
      assert JoinWith(parts, sep) == parts[0] + (sep + JoinWith(parts[1..], sep));
    }
  }

  lemma {:induction false} WordEndOfWord(w: string, rest: string)
    requires NoSpace(w)
    requires rest == [] || IsSpace(rest[0])
    ensures WordEnd(w + rest) == |w|
    decreases |w|
  {
    if w == [] {
      assert w + rest == rest;
    } else {
      assert (w + rest)[1..] == w[1..] + rest;
      WordEndOfWord(w[1..], rest);
    }
  }

  lemma WordsAfterWord(w: string, rest: string)
    requires w != [] && NoSpace(w)
    requires rest == [] || IsSpace(rest[0])
    ensures Words(w + rest) == [w] + Words(rest)
  {
    WordEndOfWord(w, rest);
    var s := w + rest;
    assert s[..|w|] == w && s[|w|..] == rest;
  }

  /** A word ends where the first white space is, whatever follows that white space. */
  lemma {:induction false} WordEndAcross(a: string, c: char, b: string)
    requires IsSpace(c)
    ensures WordEnd(a + [c] + b) == WordEnd(a)
    decreases |a|
  {
    var s := a + [c] + b;
    if a != [] && !IsSpace(a[0]) {
      assert s[0] == a[0] && s[1..] == a[1..] + [c] + b;
      WordEndAcross(a[1..], c, b);
    }
  }

  /**
   * A white-space character separates the words before it from those after
   * it, so leading, trailing and repeated white space yield no word.
   */
  lemma {:induction false} WordsAcrossSpace(a: string, c: char, b: string)
    requires IsSpace(c)
    ensures Words(a + [c] + b) == Words(a) + Words(b)
    decreases |a|
  {
    var s := a + [c] + b;
    if a == [] {
      assert s[1..] == b;
    } else if IsSpace(a[0]) {
      assert s[0] == a[0] && s[1..] == a[1..] + [c] + b;
      WordsAcrossSpace(a[1..], c, b);
    } else {
      var n := WordEnd(a);
      WordEndAcross(a, c, b);
      assert s[0] == a[0];
      assert s[..n] == a[..n];
      assert s[n..] == a[n..] + [c] + b;
      WordsAcrossSpace(a[n..], c, b);
    }
  }

  /** Splitting a space-joined list of words gives the words back. */
  lemma {:induction false} WordsOfJoin(ws: seq<string>)
    requires forall k :: 0 <= k < |ws| ==> ws[k] != [] && NoSpace(ws[k])
    ensures Words(JoinWith(ws, " ")) == ws
    decreases |ws|
  {
    if ws == [] {
    } else if |ws| == 1 {
      WordsAfterWord(ws[0], "");
      assert ws[0] + "" == ws[0];
    } else {
      var rest := JoinWith(ws[1..], " ");
      WordsOfJoin(ws[1..]);
      WordsAfterWord(ws[0], " " + rest);
      assert ws[0] + " " + rest == ws[0] + (" " + rest);
      assert (" " + rest)[1..] == rest;
    }
  }

  /**
   * Tokenising a line made of words separated by single spaces gives back
   * exactly those words: the command router sees the words a user typed.
   */
  lemma TokensOfJoin(ws: seq<string>)
    requires ws != []
    requires forall k :: 0 <= k < |ws| ==> ws[k] != [] && NoSpace(ws[k])
    ensures Tokens(JoinWith(ws, " ")) == ws
  {
    WordsOfJoin(ws);
  }

  /** `xs.filter(x => x !== y)`: every other element, in order, repeats included. */
  function Without<T(==,!new)>(xs: seq<T>, y: T): (r: seq<T>)
    ensures multiset(r) == multiset(xs)[y := 0]
    ensures forall x :: x in r <==> x in xs && x != y
    ensures y !in xs ==> r == xs
  {
    if xs == [] then []
    else
      var rest := Without(xs[1..], y);
      assert xs == [xs[0]] + xs[1..];
      if xs[0] == y then rest else [xs[0]] + rest
  }

  /** Filtering a concatenation filters each part and keeps them in order. */
  lemma {:induction false} WithoutAppend<T(!new)>(a: seq<T>, b: seq<T>, y: T)
    ensures Without(a + b, y) == Without(a, y) + Without(b, y)
    decreases |a|
  {
    if a == [] {
      assert a + b == b;
    } else {
      assert (a + b)[0] == a[0] && (a + b)[1..] == a[1..] + b;
      WithoutAppend(a[1..], b, y);
    }
  }

  predicate StartsWith(s: string, prefix: string) {
    |prefix| <= |s| && s[..|prefix|] == prefix
  }

  predicate EndsWith(s: string, suffix: string) {
    |suffix| <= |s| && s[|s| - |suffix|..] == suffix
  }

  /** `pat` occurs in `s` starting at index `i`. */
  predicate OccursAt(s: string, pat: string, i: nat) {
    i + |pat| <= |s| && s[i..i + |pat|] == pat
  }

  /** `s.indexOf(pat, from)`, with `None` for -1. */
  function IndexOfFrom(s: string, pat: string, from: nat): (r: Option<nat>)
    ensures r.Some? ==> from <= r.value && OccursAt(s, pat, r.value)
    ensures r.Some? ==> forall j :: from <= j < r.value ==> !OccursAt(s, pat, j)
    ensures r.None? ==> forall j :: from <= j ==> !OccursAt(s, pat, j)
    decreases |s| - from
  {
    if from + |pat| > |s| then None
    else if s[from..from + |pat|] == pat then Some(from)
    else IndexOfFrom(s, pat, from + 1)
  }

  function IndexOf(s: string, pat: string): Option<nat> {
    IndexOfFrom(s, pat, 0)
  }

  /** For a one-character pattern, `indexOf` is the first index holding that character. */
  lemma IndexOfChar(s: string, c: char, k: nat)
    requires k <= |s|
    requires forall j :: 0 <= j < k ==> s[j] != c
    requires k < |s| ==> s[k] == c
    ensures IndexOf(s, [c]) == if k < |s| then Some(k) else None
  {
    var r := IndexOf(s, [c]);
    if r.Some? {
      assert s[r.value..r.value + 1] == [c];
      assert s[r.value] == c;
    }
    if k < |s| {
      assert OccursAt(s, [c], k);
    }
  }

  /** `s.includes(pat)`. */
  predicate Contains(s: string, pat: string) {
    IndexOf(s, pat).Some?
  }

  /** Every string includes the empty string. */
  lemma ContainsEmpty(s: string)
    ensures Contains(s, "")
  {
    assert OccursAt(s, "", 0);
  }

  /** An occurrence inside a prefix is an occurrence in the whole string. */
  lemma OccursInPrefix(s: string, pat: string, i: nat, j: nat)
    requires i <= |s| && OccursAt(s[..i], pat, j)
    ensures OccursAt(s, pat, j)
  {
    assert s[..i][j..j + |pat|] == s[j..j + |pat|];
  }

  /** `s.split(sep)` for a non-empty separator. */
  function SplitOn(s: string, sep: string): (parts: seq<string>)
    requires sep != []
    ensures |parts| >= 1
    ensures JoinWith(parts, sep) == s
    ensures forall k :: 0 <= k < |parts| ==> !Contains(parts[k], sep)
    decreases |s|
  {
    match IndexOf(s, sep)
    case None => [s]
    case Some(i) =>
      var head, tail := s[..i], s[i + |sep|..];
      var rest := SplitOn(tail, sep);
      assert s == head + sep + tail by {
        assert s[i..i + |sep|] == sep;
      }
      assert ([head] + rest)[1..] == rest;
      assert !Contains(head, sep) by {
        if IndexOf(head, sep).Some? {
          OccursInPrefix(s, sep, i, IndexOf(head, sep).value);
        }
      }
      [head] + rest
  }

  /** The last piece of a split on one character is what follows the last occurrence. */
  lemma {:induction false} LastPieceAfterSeparator(a: string, c: char, b: string)
    requires !Contains(b, [c])
    ensures Last(SplitOn(a + [c] + b, [c])) == b
    decreases |a|
  {
    var s := a + [c] + b;
    assert OccursAt(s, [c], |a|);
    var i := IndexOf(s, [c]).value;
    LastPieceAfterFirst(s, c, i);
    AfterSeparator(a, c, b, i);
    if i == |a| {
      SplitWithoutSeparator(b, c);
    } else {
      LastPieceAfterSeparator(a[i + 1..], c, b);
    }
  }

  /** What follows position `i` of `a + [c] + b`, for `i` up to the position of `c`. */
  lemma AfterSeparator(a: string, c: char, b: string, i: nat)
    requires i <= |a|
    ensures i == |a| ==> (a + [c] + b)[i + 1..] == b
    ensures i < |a| ==> (a + [c] + b)[i + 1..] == a[i + 1..] + [c] + b
  {
  }

  /** Splitting at the first separator: the piece before it, then the pieces of what follows. */
  lemma {:induction false} SplitOnAt(s: string, sep: string, i: nat)
    requires sep != [] && IndexOf(s, sep) == Some(i)
    ensures SplitOn(s, sep) == [s[..i]] + SplitOn(s[i + |sep|..], sep)
  {
  }

  /** The last piece is the last piece of what follows the first separator. */
  lemma {:induction false} LastPieceAfterFirst(s: string, c: char, i: nat)
    requires IndexOf(s, [c]) == Some(i)
    ensures Last(SplitOn(s, [c])) == Last(SplitOn(s[i + 1..], [c]))
  {
    SplitOnAt(s, [c], i);
    LastOfCons(s[..i], SplitOn(s[i + 1..], [c]));
  }

  /** A string without the separator is one piece. */
  lemma {:induction false} SplitWithoutSeparator(b: string, c: char)
    requires !Contains(b, [c])
    ensures SplitOn(b, [c]) == [b]
  {
  }

  /** `s.replace(pat, rep)` with a string pattern: only the first occurrence is replaced. */
  function ReplaceFirst(s: string, pat: string, rep: string): string {
    match IndexOf(s, pat)
    case None => s
    case Some(i) => s[..i] + rep + s[i + |pat|..]
  }

  /** Replacing the empty-replacement occurrence of a prefix removes that prefix. */
  lemma ReplacePrefix(s: string, prefix: string)
    requires StartsWith(s, prefix)
    ensures ReplaceFirst(s, prefix, "") == s[|prefix|..]
  {
    assert OccursAt(s, prefix, 0);
  }

  function LowerChar(c: char): char {
    if 'A' <= c <= 'Z' then (c as int - 'A' as int + 'a' as int) as char else c
  }

  /** `toLowerCase` over ASCII. */
  function Lower(s: string): (r: string)
    ensures |r| == |s|
  {
    seq(|s|, i requires 0 <= i < |s| => LowerChar(s[i]))
  }

  function Digit(d: nat): char
    requires d < 10
  {
    "0123456789"[d]
  }

  /** Decimal rendering of a natural number, as template literals print it. */
  function NatToString(n: nat): (s: string)
    ensures s != []
    decreases n
  {
    if n < 10 then [Digit(n)] else NatToString(n / 10) + [Digit(n % 10)]
  }

  function Last<T>(s: seq<T>): T
    requires s != []
  {
    s[|s| - 1]
  }

  lemma AppendAssoc<T>(a: seq<T>, b: seq<T>, c: seq<T>)
    ensures (a + b) + c == a + (b + c)
  {
  }
  /** An element of a concatenation comes from the front or from the back. */
  lemma IndexAppend<T>(a: seq<T>, b: seq<T>, j: nat)
    requires j < |a| + |b|
    ensures (a + b)[j] == if j < |a| then a[j] else b[j - |a|]
  {
  }

  /** The head and tail of a concatenation with a non-empty front. */
  lemma HeadTailAppend<T>(a: seq<T>, b: seq<T>)
    requires a != []
    ensures (a + b)[0] == a[0] && (a + b)[1..] == a[1..] + b
  {
  }

  lemma LastOfCons<T>(x: T, rest: seq<T>)
    requires rest != []
    ensures Last([x] + rest) == Last(rest)
  {
  }

  function DropLast<T>(s: seq<T>): seq<T>
    requires s != []
  {
    s[..|s| - 1]
  }

  /** A non-empty sequence is its front followed by its last element. */
  lemma DropLastLast<T>(s: seq<T>)
    requires s != []
    ensures s == DropLast(s) + [Last(s)]
    ensures forall x :: x in s <==> x in DropLast(s) || x == Last(s)
  {
  }
}
