/** Small helpers shared by every part of the model: an optional value,
    JavaScript truthiness of optional strings, `String.prototype.split`,
    `trim`, `Array.prototype.find` and ASCII lower-casing. */
module Common {

  datatype Option<T> = None | Some(value: T)

  /** `o` is present and is not the empty string (JavaScript truthiness). */
  predicate Truthy(o: Option<string>) {
    o.Some? && o.value != ""
  }

  /** `a || b` on optional strings. */
  function OrElse(a: Option<string>, b: Option<string>): Option<string> {
    if Truthy(a) then a else b
  }

  /** `s || ''` on an optional string. */
  function OrEmpty(o: Option<string>): string {
    if o.Some? then o.value else ""
  }

  // ---------------------------------------------------------------------
  // split / join
  // ---------------------------------------------------------------------

  /** `s.split(sep)` for a non-empty separator: the pieces between the
      non-overlapping occurrences of `sep`, scanning from the left. */
  function SplitOn(s: string, sep: string): (parts: seq<string>)
    requires |sep| > 0
    ensures |parts| >= 1
    ensures |parts| == 1 ==> parts[0] == s
    decreases |s|
  {
    if |s| < |sep| then [s]
    else if s[..|sep|] == sep then [[]] + SplitOn(s[|sep|..], sep)
    else
      var rest := SplitOn(s[1..], sep);
      [[s[0]] + rest[0]] + rest[1..]
  }

  /** `parts.join(sep)`. */
  function JoinWith(parts: seq<string>, sep: string): string {
    if |parts| == 0 then []
    else if |parts| == 1 then parts[0]
    else parts[0] + sep + JoinWith(parts[1..], sep)
  }

  /** `pat` occurs in `s` starting at position `k`. */
  predicate OccursAt(s: string, pat: string, k: nat) {
    k + |pat| <= |s| && s[k..k + |pat|] == pat
  }

  /** Position of the first occurrence of `pat` in `s` (`indexOf`, with `None` for -1). */
  function IndexOf(s: string, pat: string): (r: Option<nat>)
    ensures r.Some? ==> OccursAt(s, pat, r.value)
    decreases |s|
  {
    if |s| < |pat| then None
    else if s[..|pat|] == pat then Some(0)
    else
      match IndexOf(s[1..], pat)
      case None => None
      case Some(i) =>
        assert s[i + 1..i + 1 + |pat|] == s[1..][i..i + |pat|];
        Some(i + 1)
  }

  /** `IndexOf` finds the first occurrence, and finds nothing only when there is none. */
  lemma {:induction false} IndexOfIsFirst(s: string, pat: string)
    ensures IndexOf(s, pat).Some? ==> forall k: nat :: k < IndexOf(s, pat).value ==> !OccursAt(s, pat, k)
    ensures IndexOf(s, pat).None? ==> forall k: nat :: !OccursAt(s, pat, k)
    decreases |s|
  {
    if |s| < |pat| {
    } else if s[..|pat|] == pat {
    } else {
      IndexOfIsFirst(s[1..], pat);
      forall k: nat | OccursAt(s, pat, k)
        ensures k > 0 && OccursAt(s[1..], pat, k - 1)
      {
        assert s[1..][k - 1..k - 1 + |pat|] == s[k..k + |pat|];
      }
    }
  }

  /** `s.includes(pat)`. */
  predicate Contains(s: string, pat: string) {
    IndexOf(s, pat).Some?
  }

  /** Splitting and joining again with the same separator gives back the string. */
  lemma {:induction false} JoinSplit(s: string, sep: string)
    requires |sep| > 0
    ensures JoinWith(SplitOn(s, sep), sep) == s
    decreases |s|
  {
    var n := |sep|;
    if |s| < n {
    } else if s[..n] == sep {
      var rest := SplitOn(s[n..], sep);
      JoinSplit(s[n..], sep);
      var parts := [[]] + rest;
      assert SplitOn(s, sep) == parts;
      assert parts[1..] == rest;
      calc {
        JoinWith(parts, sep);
        parts[0] + sep + JoinWith(rest, sep);
        [] + sep + s[n..];
        { assert s == s[..n] + s[n..]; }
        s;
      }
    } else {
      var rest := SplitOn(s[1..], sep);
      JoinSplit(s[1..], sep);
      var parts := [[s[0]] + rest[0]] + rest[1..];
      assert SplitOn(s, sep) == parts;
      assert s == [s[0]] + s[1..];
      if |rest| > 1 {
        assert parts[1..] == rest[1..];
        calc {
          JoinWith(parts, sep);
          ([s[0]] + rest[0]) + sep + JoinWith(rest[1..], sep);
          [s[0]] + (rest[0] + sep + JoinWith(rest[1..], sep));
          [s[0]] + JoinWith(rest, sep);
        }
      }
    }
  }

  /** A split gives two or more pieces exactly when the separator occurs, and
      then the first piece is the text before its first occurrence. */
  lemma {:induction false} SplitFirstPiece(s: string, sep: string)
    requires |sep| > 0
    ensures |SplitOn(s, sep)| >= 2 <==> IndexOf(s, sep).Some?
    ensures IndexOf(s, sep).Some? ==> SplitOn(s, sep)[0] == s[..IndexOf(s, sep).value]
    decreases |s|
  {
    if |s| < |sep| {
    } else if s[..|sep|] == sep {
    } else {
      SplitFirstPiece(s[1..], sep);
      var rest := SplitOn(s[1..], sep);
      if IndexOf(s[1..], sep).Some? {
        var i := IndexOf(s[1..], sep).value;
        assert s[..i + 1] == [s[0]] + s[1..][..i];
      }
    }
  }

  /** Splitting on a single character: no piece contains the separator. */
  lemma {:induction false} SplitPiecesAvoidSep(s: string, c: char)
    ensures forall k :: 0 <= k < |SplitOn(s, [c])| ==> c !in SplitOn(s, [c])[k]
    decreases |s|
  {
    if |s| < 1 {
    } else if s[..1] == [c] {
      SplitPiecesAvoidSep(s[1..], c);
    } else {
      SplitPiecesAvoidSep(s[1..], c);
      var rest := SplitOn(s[1..], [c]);
      assert s[0] != c by { assert s[..1] == [s[0]]; }
      assert forall k :: 1 <= k < |SplitOn(s, [c])| ==> SplitOn(s, [c])[k] == rest[k];
    }
  }

  /** A string free of the (one-character) separator is a single piece. */
  lemma {:induction false} SplitNone(s: string, c: char)
    requires c !in s
    ensures SplitOn(s, [c]) == [s]
    decreases |s|
  {
    if s != [] {
      assert s[0] != c;
      assert s[..1] != [c];
      SplitNone(s[1..], c);
      assert s == [s[0]] + s[1..];
    }
  }

  /** A prefix free of the (one-character) separator sticks to the first piece. */
  lemma {:induction false} SplitPrefix(a: string, t: string, c: char)
    requires c !in a
    ensures SplitOn(a + t, [c]) == [a + SplitOn(t, [c])[0]] + SplitOn(t, [c])[1..]
    decreases |a|
  {
    if a == [] {
      var p := SplitOn(t, [c]);
      assert a + t == t && a + p[0] == p[0];
      assert [p[0]] + p[1..] == p;
    } else {
      var s := a + t;
      assert a[0] != c;
      assert s[..1] == [a[0]];
      assert s[1..] == a[1..] + t;
      SplitPrefix(a[1..], t, c);
      var p := SplitOn(t, [c]);
      var rest := SplitOn(s[1..], [c]);
      assert rest == [a[1..] + p[0]] + p[1..];
      assert SplitOn(s, [c]) == [[s[0]] + rest[0]] + rest[1..];
      assert rest[1..] == p[1..];
      assert [s[0]] + rest[0] == a + p[0];
    }
  }

  /** A suffix free of the (one-character) separator sticks to the last piece. */
  lemma {:induction false} SplitSuffix(t: string, b: string, c: char)
    requires c !in b
    ensures var p := SplitOn(t, [c]);
            SplitOn(t + b, [c]) == p[..|p| - 1] + [p[|p| - 1] + b]
    decreases |t|
  {
    var p := SplitOn(t, [c]);
    if t == [] {
      assert t + b == b;
      SplitPrefix(b, [], c);
      assert b + [] == b;
    } else if t[..1] == [c] {
      var s := t + b;
      assert s[..1] == [c];
      assert s[1..] == t[1..] + b;
      SplitSuffix(t[1..], b, c);
    } else {
      var s := t + b;
      assert s[..1] == t[..1];
      assert s[1..] == t[1..] + b;
      SplitSuffix(t[1..], b, c);
      var q := SplitOn(t[1..], [c]);
      if |q| == 1 {
        assert [t[0]] + (q[0] + b) == ([t[0]] + q[0]) + b;
      } else {
        assert p[..|p| - 1] == [[t[0]] + q[0]] + q[1..|q| - 1];
      }
    }
  }

  /** With the separator occurring once, exactly the two sides come back. */
  lemma SplitTwo(a: string, b: string, c: char)
    requires c !in a && c !in b
    ensures SplitOn(a + [c] + b, [c]) == [a, b]
  {
    var t := [c] + b;
    assert a + [c] + b == a + t;
    assert t[..1] == [c] && t[1..] == b;
    SplitNone(b, c);
    assert SplitOn(t, [c]) == [[], b];
    SplitPrefix(a, t, c);
    assert a + [] == a;
  }

  // ---------------------------------------------------------------------
  // trim
  // ---------------------------------------------------------------------

  /** The characters JavaScript's `trim` removes: the ECMAScript white
      space (tab, vertical tab, form feed, space, no-break space, the byte
      order mark and the space separators of Unicode category Zs) and the
      line terminators (line feed, carriage return, U+2028, U+2029). */
  predicate IsSpace(ch: char) {
    || ch == '\t' || ch == '\U{B}' || ch == '\U{C}' || ch == ' ' || ch == '\U{A0}' || ch == '\U{FEFF}'
    || ch == '\U{1680}' || '\U{2000}' <= ch <= '\U{200A}' || ch == '\U{202F}' || ch == '\U{205F}' || ch == '\U{3000}'
    || ch == '\n' || ch == '\r' || ch == '\U{2028}' || ch == '\U{2029}'
  }

  predicate AllSpace(s: string) {
    forall k :: 0 <= k < |s| ==> IsSpace(s[k])
  }

  function TrimStart(s: string): string
    decreases |s|
  {
    if s == [] then []
    else if IsSpace(s[0]) then TrimStart(s[1..])
    else s
  }

  function TrimEnd(s: string): string
    decreases |s|
  {
    if s == [] then []
    else if IsSpace(s[|s| - 1]) then TrimEnd(s[..|s| - 1])
    else s
  }

  /** `s.trim()`. */
  function Trim(s: string): string {
    TrimEnd(TrimStart(s))
  }

  /** `parts.map(p => p.trim())`. */
  function TrimAll(parts: seq<string>): (r: seq<string>)
    ensures |r| == |parts|
    ensures forall k :: 0 <= k < |r| ==> r[k] == Trim(parts[k])
  {
    seq(|parts|, k requires 0 <= k < |parts| => Trim(parts[k]))
  }

  lemma {:induction false} TrimStartAppend(y: string, z: string)
    ensures TrimStart(y + z) == if TrimStart(y) == [] then TrimStart(z) else TrimStart(y) + z
    decreases |y|
  {
    if y == [] {
      assert y + z == z;
    } else {
      assert (y + z)[0] == y[0];
      assert (y + z)[1..] == y[1..] + z;
      TrimStartAppend(y[1..], z);
    }
  }

  lemma {:induction false} TrimEndAppend(y: string, z: string)
    ensures TrimEnd(y + z) == if TrimEnd(z) == [] then TrimEnd(y) else y + TrimEnd(z)
    decreases |z|
  {
    if z == [] {
      assert y + z == y;
    } else {
      var s := y + z;
      assert s[|s| - 1] == z[|z| - 1];
      assert s[..|s| - 1] == y + z[..|z| - 1];
      TrimEndAppend(y, z[..|z| - 1]);
    }
  }

  lemma {:induction false} TrimSpaces(a: string)
    requires AllSpace(a)
    ensures TrimStart(a) == [] && TrimEnd(a) == []
    decreases |a|
  {
    if a != [] {
      TrimSpaces(a[1..]);
      TrimSpaces(a[..|a| - 1]);
    }
  }

  /** Leading white space does not change the trimmed text. */
  lemma TrimSpacePrefix(a: string, x: string)
    requires AllSpace(a)
    ensures Trim(a + x) == Trim(x)
  {
    TrimStartAppend(a, x);
    TrimSpaces(a);
  }

  /** Trailing white space does not change the trimmed text. */
  lemma TrimSpaceSuffix(x: string, b: string)
    requires AllSpace(b)
    ensures Trim(x + b) == Trim(x)
  {
    TrimStartAppend(x, b);
    TrimSpaces(b);
    if TrimStart(x) != [] {
      TrimEndAppend(TrimStart(x), b);
    }
  }

  /** A string without white space at either end is its own trim. */
  lemma TrimNoEdgeSpace(s: string)
    requires s != [] && !IsSpace(s[0]) && !IsSpace(s[|s| - 1])
    ensures Trim(s) == s
  {
  }

  /** Splitting a string or its trimmed form on a non-space character gives
      the same pieces once each piece is trimmed. */
  lemma TrimmedPieces(s: string, c: char)
    requires !IsSpace(c)
    ensures TrimAll(SplitOn(Trim(s), [c])) == TrimAll(SplitOn(s, [c]))
  {
    TrimmedPiecesEnd(TrimStart(s), c);
    TrimmedPiecesStart(s, c);
  }

  lemma TrimAllFirst(x: string, y: string, r: seq<string>)
    requires Trim(x) == Trim(y)
    ensures TrimAll([x] + r) == TrimAll([y] + r)
  {
    var u, v := TrimAll([x] + r), TrimAll([y] + r);
    assert forall k :: 1 <= k < |u| ==> u[k] == Trim(r[k - 1]) == v[k];
  }

  lemma TrimAllLast(r: seq<string>, x: string, y: string)
    requires Trim(x) == Trim(y)
    ensures TrimAll(r + [x]) == TrimAll(r + [y])
  {
    var u, v := TrimAll(r + [x]), TrimAll(r + [y]);
    assert forall k :: 0 <= k < |r| ==> u[k] == Trim(r[k]) == v[k];
  }

  lemma {:induction false} TrimmedPiecesStart(s: string, c: char)
    requires !IsSpace(c)
    ensures TrimAll(SplitOn(TrimStart(s), [c])) == TrimAll(SplitOn(s, [c]))
    decreases |s|
  {
    if s != [] && IsSpace(s[0]) {
      assert TrimStart(s) == TrimStart(s[1..]);
      TrimmedPiecesStart(s[1..], c);
      var p := SplitOn(s[1..], [c]);
      assert s[0] != c;
      assert s == [s[0]] + s[1..];
      SplitPrefix([s[0]], s[1..], c);
      assert SplitOn(s, [c]) == [[s[0]] + p[0]] + p[1..];
      TrimSpacePrefix([s[0]], p[0]);
      TrimAllFirst([s[0]] + p[0], p[0], p[1..]);
      assert [p[0]] + p[1..] == p;
    }
  }

  lemma {:induction false} TrimmedPiecesEnd(s: string, c: char)
    requires !IsSpace(c)
    ensures TrimAll(SplitOn(TrimEnd(s), [c])) == TrimAll(SplitOn(s, [c]))
    decreases |s|
  {
    if s != [] && IsSpace(s[|s| - 1]) {
      var y := s[..|s| - 1];
      var e := s[|s| - 1];
      assert TrimEnd(s) == TrimEnd(y);
      TrimmedPiecesEnd(y, c);
      assert e != c;
      assert s == y + [e];
      SplitSuffix(y, [e], c);
      var p := SplitOn(y, [c]);
      var n := |p| - 1;
      assert SplitOn(s, [c]) == p[..n] + [p[n] + [e]];
      TrimSpaceSuffix(p[n], [e]);
      TrimAllLast(p[..n], p[n] + [e], p[n]);
      assert p[..n] + [p[n]] == p;
    }
  }

  // ---------------------------------------------------------------------
  // find, filter, lower-case
  // ---------------------------------------------------------------------

  /** `xs.findIndex(p)`, with `None` for -1. */
  function FindIndex<T>(xs: seq<T>, p: T -> bool): (r: Option<nat>)
    ensures r.Some? ==> r.value < |xs| && p(xs[r.value])
    ensures r.Some? ==> forall j :: 0 <= j < r.value ==> !p(xs[j])
    ensures r.None? ==> forall j :: 0 <= j < |xs| ==> !p(xs[j])
    decreases |xs|
  {
    if xs == [] then None
    else if p(xs[0]) then Some(0)
    else
      match FindIndex(xs[1..], p)
      case None => None
      case Some(i) => Some(i + 1)
  }

  /** `xs.find(p) || null`. */
  function Find<T>(xs: seq<T>, p: T -> bool): (r: Option<T>)
    ensures r.Some? <==> exists j :: 0 <= j < |xs| && p(xs[j])
    ensures r.Some? ==> r.value in xs && p(r.value)
  {
    match FindIndex(xs, p)
    case None => None
    case Some(i) => Some(xs[i])
  }

  /** `xs.filter(p)`. */
  function Filter<T>(xs: seq<T>, p: T -> bool): (r: seq<T>)
    ensures |r| <= |xs|
    ensures forall k :: 0 <= k < |r| ==> p(r[k]) && r[k] in xs
    ensures forall x :: x in xs && p(x) ==> x in r
    decreases |xs|
  {
    if xs == [] then []
    else if p(xs[0]) then [xs[0]] + Filter(xs[1..], p)
    else Filter(xs[1..], p)
  }

  /** `s.toLowerCase()` on ASCII letters. */
  function ToLower(s: string): (r: string)
    ensures |r| == |s|
  {
    seq(|s|, k requires 0 <= k < |s| =>
      if 'A' <= s[k] <= 'Z' then (s[k] as int + 32) as char else s[k])
  }

  /** `s.startsWith(prefix)`. */
  predicate StartsWith(s: string, prefix: string) {
    |prefix| <= |s| && s[..|prefix|] == prefix
  }

  /** `xs.slice().reverse()`: the last element first. */
  function Reverse<T(!new)>(xs: seq<T>): (r: seq<T>)
    ensures |r| == |xs|
    ensures forall k :: 0 <= k < |xs| ==> r[k] == xs[|xs| - 1 - k]
    ensures forall x :: x in r <==> x in xs
  {
    if xs == [] then [] else Reverse(xs[1..]) + [xs[0]]
  }

  /** Reversing keeps every element with its multiplicity. */
  lemma {:induction false} ReversePermutes<T(!new)>(xs: seq<T>)
    ensures multiset(Reverse(xs)) == multiset(xs)
  {
    if xs != [] {
      ReversePermutes(xs[1..]);
      assert xs == [xs[0]] + xs[1..];
    }
  }
}
