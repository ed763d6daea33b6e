/**
 * The JavaScript string built-ins the components rely on, with their ECMAScript semantics:
 * the whitespace set shared by `\s` and `String.prototype.trim`, `split` on a one-character
 * separator, `Array.prototype.map`/`filter`/`slice(0, n)`, `includes`, `indexOf`,
 * `substring`, and the literal and case-insensitive marker search a regular expression
 * without the `u` flag performs. A JavaScript string is a sequence of UTF-16 code units;
 * here it is a sequence of Dafny characters, which coincide for every character in the
 * Basic Multilingual Plane.
 */
module JsText {
  import opened Wrappers

  // ---------------------------------------------------------------------------
  // Character classes

  /** ECMAScript WhiteSpace and LineTerminator: what `\s` matches and what `trim` removes. */
  predicate IsSpace(c: char) {
    c == '\t' || c == '\n' || c == '\U{B}' || c == '\U{C}' || c == '\r' || c == ' '
    || c == '\U{A0}' || c == '\U{1680}' || ('\U{2000}' <= c <= '\U{200A}')
    || c == '\U{2028}' || c == '\U{2029}' || c == '\U{202F}' || c == '\U{205F}'
    || c == '\U{3000}' || c == '\U{FEFF}'
  }

  /** What `\d` matches. */
  predicate IsDigit(c: char) {
    '0' <= c <= '9'
  }

  predicate AllSpace(s: string) {
    forall i :: 0 <= i < |s| ==> IsSpace(s[i])
  }

  predicate AllDigits(s: string) {
    forall i :: 0 <= i < |s| ==> IsDigit(s[i])
  }

  /** A string `trim` leaves as it is. */
  predicate IsTrimmed(s: string) {
    s == [] || (!IsSpace(s[0]) && !IsSpace(s[|s| - 1]))
  }

  predicate NonEmpty(s: string) {
    s != []
  }

  /** Case folding as a non-Unicode `/i` pattern applies it when the pattern is ASCII. */
  function AsciiLower(c: char): (r: char)
    ensures 'A' <= c <= 'Z' ==> 'a' <= r <= 'z' && r as int == c as int + 32
    ensures !('A' <= c <= 'Z') ==> r == c
  {
    if 'A' <= c <= 'Z' then (c as int + 32) as char else c
  }

  /** `toUpperCase` restricted to ASCII letters. */
  function AsciiUpper(c: char): (r: char)
    ensures 'a' <= c <= 'z' ==> 'A' <= r <= 'Z' && r as int == c as int - 32
    ensures !('a' <= c <= 'z') ==> r == c
  {
    if 'a' <= c <= 'z' then (c as int - 32) as char else c
  }

  // ---------------------------------------------------------------------------
  // Dropping a run of characters, and trim

  /** The string without its longest prefix of characters satisfying `p`. */
  function DropWhile(p: char -> bool, s: string): (r: string)
    ensures |r| <= |s| && r == s[|s| - |r|..]
    ensures forall i :: 0 <= i < |s| - |r| ==> p(s[i])
    ensures r != [] ==> !p(r[0])
    decreases |s|
  {
    if s != [] && p(s[0]) then DropWhile(p, s[1..]) else s
  }

  /** The string without its longest suffix of whitespace. */
  function TrimEnd(s: string): (r: string)
    ensures |r| <= |s| && r == s[..|r|]
    ensures forall i :: |r| <= i < |s| ==> IsSpace(s[i])
    ensures r != [] ==> !IsSpace(r[|r| - 1])
    decreases |s|
  {
    if s != [] && IsSpace(s[|s| - 1]) then TrimEnd(s[..|s| - 1]) else s
  }

  /** `String.prototype.trim`: the string between its leading and its trailing whitespace. */
  function Trim(s: string): (r: string)
    ensures IsTrimmed(r)
    ensures r == [] <==> AllSpace(s)
  {
    var t := DropWhile(IsSpace, s);
    var r := TrimEnd(t);
    EmptyIffAllSpace(s, t, |r|);
    r
  }

  /** Nothing is left after dropping leading and trailing white space exactly when all of it is white space. */
  lemma EmptyIffAllSpace(s: string, t: string, k: nat)
    requires |t| <= |s| && t == s[|s| - |t|..] && (t != [] ==> !IsSpace(t[0]))
    requires forall i :: 0 <= i < |s| - |t| ==> IsSpace(s[i])
    requires k <= |t| && forall i :: k <= i < |t| ==> IsSpace(t[i])
    ensures k == 0 <==> AllSpace(s)
  {
    if t != [] {
      assert t[0] == s[|s| - |t|];
    }
  }

  /** `r` lies at `a` in `s`, with only white space before and after it. */
  predicate PaddedAt(s: string, r: string, a: nat) {
    a + |r| <= |s| && s[a..a + |r|] == r && AllSpace(s[..a]) && AllSpace(s[a + |r|..])
  }

  /** `trim` keeps an infix of the string and removes only white space around it. */
  lemma TrimIsInfix(s: string)
    ensures exists a: nat :: PaddedAt(s, Trim(s), a)
  {
    var t := DropWhile(IsSpace, s);
    var r := TrimEnd(t);
    SuffixThenPrefix(s, t, r);
    assert Trim(s) == r;
  }

  lemma SuffixThenPrefix(s: string, t: string, r: string)
    requires |t| <= |s| && t == s[|s| - |t|..] && forall i :: 0 <= i < |s| - |t| ==> IsSpace(s[i])
    requires |r| <= |t| && r == t[..|r|] && forall i :: |r| <= i < |t| ==> IsSpace(t[i])
    ensures PaddedAt(s, r, |s| - |t|)
  {
    InfixOfSuffix(s, t, r);
    SpaceAfterInfix(s, t, |r|);
    SpaceBeforeSuffix(s, |s| - |t|);
  }

  /** A prefix of a suffix is an infix. */
  lemma InfixOfSuffix(s: string, t: string, r: string)
    requires |t| <= |s| && t == s[|s| - |t|..]
    requires |r| <= |t| && r == t[..|r|]
    ensures |s| - |t| + |r| <= |s| && s[|s| - |t|..|s| - |t| + |r|] == r
  {
  }

  lemma SpaceBeforeSuffix(s: string, a: nat)
    requires a <= |s| && forall i :: 0 <= i < a ==> IsSpace(s[i])
    ensures AllSpace(s[..a])
  {
  }

  /** White space at the end of a suffix is white space at the end of the string. */
  lemma SpaceAfterInfix(s: string, t: string, k: nat)
    requires |t| <= |s| && t == s[|s| - |t|..]
    requires k <= |t| && forall i :: k <= i < |t| ==> IsSpace(t[i])
    ensures AllSpace(s[|s| - |t| + k..])
  {
    assert s[|s| - |t| + k..] == t[k..];
  }

  lemma {:induction false} TrimTrimmed(s: string)
    requires IsTrimmed(s)
    ensures Trim(s) == s
  {
    if s != [] {
      assert DropWhile(IsSpace, s) == s;
      assert TrimEnd(s) == s;
    }
  }

  lemma {:induction false} TrimIdempotent(s: string)
    ensures Trim(Trim(s)) == Trim(s)
  {
    TrimTrimmed(Trim(s));
  }

  /** Every character of a trimmed string comes from the string. */
  lemma TrimChars(s: string, c: char)
    requires c in Trim(s)
    ensures c in s
  {
    var t := DropWhile(IsSpace, s);
    assert c in TrimEnd(t);
    assert c in t;
  }

  /** Dropping a run that ends where `b` begins leaves exactly `b`. */
  lemma {:induction false} DropWhileRun(p: char -> bool, a: string, b: string)
    requires forall i :: 0 <= i < |a| ==> p(a[i])
    requires b == [] || !p(b[0])
    ensures DropWhile(p, a + b) == b
    decreases |a|
  {
    if a != [] {
      assert (a + b)[1..] == a[1..] + b;
      DropWhileRun(p, a[1..], b);
    }
  }

  /** Dropping trailing whitespace that starts where `a` ends leaves exactly `a`. */
  lemma {:induction false} TrimEndRun(a: string, b: string)
    requires AllSpace(b)
    requires a == [] || !IsSpace(a[|a| - 1])
    ensures TrimEnd(a + b) == a
    decreases |b|
  {
    if b != [] {
      assert (a + b)[..|a + b| - 1] == a + b[..|b| - 1];
      TrimEndRun(a, b[..|b| - 1]);
    } else {
      assert a + b == a;
    }
  }

  /** `trim` undoes padding a trimmed string with whitespace on both sides. */
  lemma TrimPadded(lead: string, mid: string, trail: string)
    requires AllSpace(lead) && AllSpace(trail) && IsTrimmed(mid)
    ensures Trim(lead + mid + trail) == mid
  {
    if mid == [] {
      assert lead + mid + trail == lead + trail;
      assert AllSpace(lead + trail);
    } else {
      assert lead + mid + trail == lead + (mid + trail);
      DropWhileRun(IsSpace, lead, mid + trail);
      TrimEndRun(mid, trail);
    }
  }

  // ---------------------------------------------------------------------------
  // split and its inverse, join

  /** `s.split(sep)` for a one-character separator: the pieces between separators, always at least one. */
  function Split(s: string, sep: char): (r: seq<string>)
    ensures |r| >= 1
    ensures forall p :: p in r ==> sep !in p
    decreases |s|
  {
    if s == [] then [[]]
    else
      var rest := Split(s[1..], sep);
      if s[0] == sep then [[]] + rest
      else
        assert forall p :: p in rest[1..] ==> p in rest;
        [[s[0]] + rest[0]] + rest[1..]
  }

  /** `ps.join(sep)`. */
  function Join(ps: seq<string>, sep: char): string
    decreases |ps|
  {
    if ps == [] then []
    else if |ps| == 1 then ps[0]
    else ps[0] + [sep] + Join(ps[1..], sep)
  }

  /** Splitting at a separator splits the two sides independently. */
  lemma {:induction false} SplitConcat(a: string, b: string, sep: char)
    ensures Split(a + [sep] + b, sep) == Split(a, sep) + Split(b, sep)
    decreases |a|
  {
    if a == [] {
      assert a + [sep] + b == [sep] + b;
      SplitCons(sep, b, sep);
    } else {
      SplitConcat(a[1..], b, sep);
      SplitConcatStep(a[0], a[1..], b, sep);
      assert [a[0]] + a[1..] == a;
    }
  }

  /** The inductive step of `SplitConcat`: one more character in front of the left side. */
  lemma SplitConcatStep(c: char, u: string, b: string, sep: char)
    requires Split(u + [sep] + b, sep) == Split(u, sep) + Split(b, sep)
    ensures Split([c] + u + [sep] + b, sep) == Split([c] + u, sep) + Split(b, sep)
  {
    assert [c] + u + [sep] + b == [c] + (u + [sep] + b);
    SplitCons(c, u + [sep] + b, sep);
    SplitCons(c, u, sep);
    PushPieces(c, sep, Split(u, sep), Split(b, sep));
  }

  /** The pieces of `[c] + t`, given the pieces `ps` of `t`: `c` starts a new first piece or extends it. */
  function Push(c: char, sep: char, ps: seq<string>): seq<string>
    requires |ps| >= 1
  {
    if c == sep then [[]] + ps else [[c] + ps[0]] + ps[1..]
  }

  /** `Split` of a string seen as its first character and the rest. */
  lemma SplitCons(c: char, t: string, sep: char)
    ensures Split([c] + t, sep) == Push(c, sep, Split(t, sep))
  {
    assert ([c] + t)[0] == c && ([c] + t)[1..] == t;
  }

  /** Pushing a character onto the first piece commutes with appending more pieces. */
  lemma PushPieces(c: char, sep: char, xs: seq<string>, ys: seq<string>)
    requires |xs| >= 1
    ensures Push(c, sep, xs + ys) == Push(c, sep, xs) + ys
  {
    assert (xs + ys)[0] == xs[0] && (xs + ys)[1..] == xs[1..] + ys;
  }

  /** A string without the separator is a single piece. */
  lemma {:induction false} SplitWithoutSep(s: string, sep: char)
    requires sep !in s
    ensures Split(s, sep) == [s]
    decreases |s|
  {
    if s != [] {
      assert sep !in s[1..];
      SplitWithoutSep(s[1..], sep);
      assert [s[0]] + s[1..] == s;
    }
  }

  /** Joining the pieces gives the split string back. */
  lemma {:induction false} JoinSplit(s: string, sep: char)
    ensures Join(Split(s, sep), sep) == s
    decreases |s|
  {
    if s != [] {
      JoinSplit(s[1..], sep);
      var rest := Split(s[1..], sep);
      if s[0] == sep {
        assert Join([[]] + rest, sep) == [] + [sep] + Join(rest, sep);
        assert s == [sep] + s[1..];
      } else {
        var r := [[s[0]] + rest[0]] + rest[1..];
        if |rest| == 1 {
          assert Join(r, sep) == [s[0]] + rest[0];
        } else {
          assert Join(rest, sep) == rest[0] + [sep] + Join(rest[1..], sep);
          assert r[1..] == rest[1..];
          assert Join(r, sep) == [s[0]] + rest[0] + [sep] + Join(rest[1..], sep);
        }
        assert s == [s[0]] + s[1..];
      }
    }
  }

  /** Splitting a join of separator-free pieces gives the pieces back. */
  lemma {:induction false} SplitJoin(ps: seq<string>, sep: char)
    requires |ps| >= 1
    requires forall p :: p in ps ==> sep !in p
    ensures Split(Join(ps, sep), sep) == ps
    decreases |ps|
  {
    SplitWithoutSep(ps[0], sep);
    if |ps| > 1 {
      assert forall p :: p in ps[1..] ==> p in ps;
      SplitJoin(ps[1..], sep);
      SplitConcat(ps[0], Join(ps[1..], sep), sep);
      assert [ps[0]] + ps[1..] == ps;
    }
  }

  // ---------------------------------------------------------------------------
  // map, filter, slice(0, n)

  /** `Array.prototype.map`. */
  function Map<T, U>(f: T -> U, s: seq<T>): (r: seq<U>)
    ensures |r| == |s|
    ensures forall i :: 0 <= i < |s| ==> r[i] == f(s[i])
    decreases |s|
  {
    if s == [] then [] else [f(s[0])] + Map(f, s[1..])
  }

  /** `Array.prototype.filter`: the elements satisfying `p`, in their order, duplicates kept. */
  function Filter<T>(p: T -> bool, s: seq<T>): (r: seq<T>)
    ensures |r| <= |s|
    ensures forall x :: x in r ==> p(x) && x in s
    ensures (forall i :: 0 <= i < |s| ==> p(s[i])) ==> r == s
    ensures (forall i :: 0 <= i < |s| ==> !p(s[i])) ==> r == []
    decreases |s|
  {
    if s == [] then []
    else
      var rest := Filter(p, s[1..]);
      assert forall x :: x in s[1..] ==> x in s;
      if p(s[0]) then
        assert [s[0]] + s[1..] == s;
        [s[0]] + rest
      else rest
  }

  lemma {:induction false} MapConcat<T, U>(f: T -> U, a: seq<T>, b: seq<T>)
    ensures Map(f, a + b) == Map(f, a) + Map(f, b)
  {
    // Both sides have the same length and the same element at every index.
  }

  lemma FilterCons<T>(p: T -> bool, x: T, s: seq<T>)
    ensures Filter(p, [x] + s) == if p(x) then [x] + Filter(p, s) else Filter(p, s)
  {
    assert ([x] + s)[0] == x && ([x] + s)[1..] == s;
  }

  lemma {:induction false} FilterConcat<T>(p: T -> bool, a: seq<T>, b: seq<T>)
    ensures Filter(p, a + b) == Filter(p, a) + Filter(p, b)
    decreases |a|
  {
    if a != [] {
      assert a + b == [a[0]] + (a[1..] + b);
      assert a == [a[0]] + a[1..];
      FilterCons(p, a[0], a[1..] + b);
      FilterCons(p, a[0], a[1..]);
      FilterConcat(p, a[1..], b);
    } else {
      assert a + b == b;
    }
  }

  /** `s.slice(0, n)`: the first `n` elements, or all of them when there are fewer. */
  function Take<T>(s: seq<T>, n: nat): (r: seq<T>)
    ensures |r| == if |s| < n then |s| else n
    ensures r == s[..|r|]
    ensures forall x :: x in r ==> x in s
  {
    if |s| < n then s else s[..n]
  }

  // ---------------------------------------------------------------------------
  // Searching for a marker

  /** The literal `pat` occurs in `text` at position `i`. */
  predicate MatchesAt(text: string, i: nat, pat: string) {
    i + |pat| <= |text| && text[i..i + |pat|] == pat
  }

  /** `pat` occurs at position `i` when ASCII letters are compared without regard to case. */
  predicate MatchesAtCI(text: string, i: nat, pat: string) {
    i + |pat| <= |text| && forall k :: 0 <= k < |pat| ==> AsciiLower(text[i + k]) == AsciiLower(pat[k])
  }

  /** The position of the first literal occurrence of `pat` at or after `from`. */
  function Find(text: string, pat: string, from: nat): (r: Option<nat>)
    ensures r.Some? ==> from <= r.value && MatchesAt(text, r.value, pat)
    ensures r.Some? ==> forall j :: from <= j < r.value ==> !MatchesAt(text, j, pat)
    ensures r.None? ==> forall j: nat :: from <= j ==> !MatchesAt(text, j, pat)
    decreases |text| - from
  {
    if from + |pat| > |text| then None
    else if MatchesAt(text, from, pat) then Some(from)
    else Find(text, pat, from + 1)
  }

  /** The position of the first case-insensitive occurrence of `pat` at or after `from`. */
  function FindCI(text: string, pat: string, from: nat): (r: Option<nat>)
    ensures r.Some? ==> from <= r.value && MatchesAtCI(text, r.value, pat)
    ensures r.Some? ==> forall j :: from <= j < r.value ==> !MatchesAtCI(text, j, pat)
    ensures r.None? ==> forall j: nat :: from <= j ==> !MatchesAtCI(text, j, pat)
    decreases |text| - from
  {
    if from + |pat| > |text| then None
    else if MatchesAtCI(text, from, pat) then Some(from)
    else FindCI(text, pat, from + 1)
  }

  /** Positions where `pat` does not occur can be skipped by the search. */
  lemma {:induction false} FindCISkip(text: string, pat: string, from: nat, to: nat)
    requires from <= to
    requires forall j :: from <= j < to ==> !MatchesAtCI(text, j, pat)
    ensures FindCI(text, pat, from) == FindCI(text, pat, to)
    decreases (to as int) - (from as int)
  {
    if from < to {
      FindCISkip(text, pat, from + 1, to);
    }
  }

  /** No occurrence of `pat` starts inside a piece that lacks its first letter in either case. */
  lemma NoMatchCIInPiece(pre: string, a: string, post: string, pat: string)
    requires pat != []
    requires forall c :: c in a ==> AsciiLower(c) != AsciiLower(pat[0])
    ensures forall j :: |pre| <= j < |pre| + |a| ==> !MatchesAtCI(pre + a + post, j, pat)
  {
    var text := pre + a + post;
    forall j | |pre| <= j < |pre| + |a| ensures !MatchesAtCI(text, j, pat) {
      assert text[j] == a[j - |pre|];
      assert text[j] in a;
    }
  }

  /** The search from `from` stops at `at` when `at` is the first occurrence from there. */
  lemma FindCIFirst(text: string, pat: string, from: nat, at: nat)
    requires from <= at && MatchesAtCI(text, at, pat)
    requires forall j :: from <= j < at ==> !MatchesAtCI(text, j, pat)
    ensures FindCI(text, pat, from) == Some(at)
  {
    FindCISkip(text, pat, from, at);
  }

  /** A literal occurrence is also a case-insensitive one. */
  lemma MatchIsMatchCI(text: string, i: nat, pat: string)
    requires MatchesAt(text, i, pat)
    ensures MatchesAtCI(text, i, pat)
  {
    forall k | 0 <= k < |pat| ensures AsciiLower(text[i + k]) == AsciiLower(pat[k]) {
      assert text[i..i + |pat|][k] == text[i + k];
    }
  }

  /** One character that differs, even ignoring case, rules out an occurrence. */
  lemma MismatchCI(text: string, j: nat, pat: string, k: nat)
    requires k < |pat| && j + k < |text| && AsciiLower(text[j + k]) != AsciiLower(pat[k])
    ensures !MatchesAtCI(text, j, pat)
  {
  }

  /** An occurrence after a prefix is an occurrence in the rest, shifted by the prefix's length. */
  lemma MatchCIShift(a: string, b: string, j: nat, pat: string)
    ensures MatchesAtCI(a + b, |a| + j, pat) <==> MatchesAtCI(b, j, pat)
  {
    if j + |pat| <= |b| {
      forall k | 0 <= k < |pat|
        ensures AsciiLower((a + b)[|a| + j + k]) == AsciiLower(pat[k]) <==> AsciiLower(b[j + k]) == AsciiLower(pat[k])
      {
        assert (a + b)[|a| + j + k] == b[j + k];
      }
    }
  }

  /** An occurrence that ends inside `a` does not depend on what follows `a`. */
  lemma MatchCIPrefix(a: string, c: string, j: nat, pat: string)
    requires j + |pat| <= |a|
    ensures MatchesAtCI(a + c, j, pat) <==> MatchesAtCI(a, j, pat)
  {
    forall k | 0 <= k < |pat|
      ensures AsciiLower((a + c)[j + k]) == AsciiLower(pat[k]) <==> AsciiLower(a[j + k]) == AsciiLower(pat[k])
    {
      assert (a + c)[j + k] == a[j + k];
    }
  }

  /** Positions free of `pat` in `b` stay free once `a` is put in front. */
  lemma NoMatchCIShifted(a: string, b: string, hi: nat, pat: string)
    requires forall j :: 0 <= j < hi ==> !MatchesAtCI(b, j, pat)
    ensures forall j :: |a| <= j < |a| + hi ==> !MatchesAtCI(a + b, j, pat)
  {
    forall j | |a| <= j < |a| + hi ensures !MatchesAtCI(a + b, j, pat) {
      MatchCIShift(a, b, j - |a|, pat);
    }
  }

  /** Positions free of `pat` in `a`, far enough from its end, stay free whatever follows `a`. */
  lemma NoMatchCIExtended(a: string, c: string, hi: nat, pat: string)
    requires hi + |pat| <= |a| + 1
    requires forall j :: 0 <= j < hi ==> !MatchesAtCI(a, j, pat)
    ensures forall j :: 0 <= j < hi ==> !MatchesAtCI(a + c, j, pat)
  {
    forall j | 0 <= j < hi ensures !MatchesAtCI(a + c, j, pat) {
      MatchCIPrefix(a, c, j, pat);
    }
  }

  /** No literal occurrence of `pat` starts inside a piece that lacks its first character. */
  lemma NoMatchInPiece(pre: string, a: string, post: string, pat: string)
    requires pat != [] && pat[0] !in a
    ensures forall j :: |pre| <= j < |pre| + |a| ==> !MatchesAt(pre + a + post, j, pat)
  {
    var text := pre + a + post;
    forall j | |pre| <= j < |pre| + |a| ensures !MatchesAt(text, j, pat) {
      assert text[j] == a[j - |pre|];
    }
  }

  /** A text that lacks one of the characters of `pat` holds no occurrence of it. */
  lemma NoMatchWithout(text: string, pat: string, k: nat)
    requires k < |pat| && pat[k] !in text
    ensures forall i: nat :: !MatchesAt(text, i, pat)
  {
    forall i: nat ensures !MatchesAt(text, i, pat) {
      if i + |pat| <= |text| {
        assert text[i..i + |pat|][k] == text[i + k];
        assert text[i + k] in text;
      }
    }
  }

  /** `text.includes(pat)`. */
  function Includes(text: string, pat: string): (r: bool)
    ensures r <==> exists i: nat :: MatchesAt(text, i, pat)
  {
    Find(text, pat, 0).Some?
  }

  /** `text.indexOf(pat)`: the first position of `pat`, or -1 when it does not occur. */
  function IndexOf(text: string, pat: string): (r: int)
    ensures -1 <= r <= |text|
    ensures r == -1 <==> forall j: nat :: !MatchesAt(text, j, pat)
    ensures r >= 0 ==> MatchesAt(text, r, pat) && forall j :: 0 <= j < r ==> !MatchesAt(text, j, pat)
  {
    match Find(text, pat, 0)
    case Some(i) => i
    case None => -1
  }

  /** `s.substring(start, end)`: both ends clamped to `[0, |s|]`, then the smaller one first. */
  function Substring(s: string, start: int, end: int): (r: string)
    ensures 0 <= start <= end <= |s| ==> r == s[start..end]
    ensures 0 <= end <= start <= |s| ==> r == s[end..start]
    ensures start <= 0 && end <= 0 ==> r == []
    ensures |r| <= |s|
  {
    var a := Clamp(start, |s|);
    var b := Clamp(end, |s|);
    if a <= b then s[a..b] else s[b..a]
  }

  function Clamp(x: int, n: nat): (r: nat)
    ensures r <= n
    ensures 0 <= x <= n ==> r == x
  {
    if x < 0 then 0 else if x > n then n else x
  }
}
