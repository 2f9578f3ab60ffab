/** The JavaScript string built-ins the core relies on: `\s`, `trim`, `replace(/\s+/g, ' ')`,
    `toLowerCase`, `slice(0, n)`, `includes`, `split` and the default `sort` comparison.
    A `char` stands for one UTF-16 code unit. */
module JsString {

  import opened JsCollections

  /** `\s` in a regular expression; `String.prototype.trim` strips exactly the same set
      (WhiteSpace and LineTerminator of ECMAScript). */
  predicate IsSpace(c: char) {
    var u := c as int;
    u == 0x09 || u == 0x0A || u == 0x0B || u == 0x0C || u == 0x0D || u == 0x20 ||
    u == 0xA0 || u == 0x1680 || (0x2000 <= u <= 0x200A) || u == 0x2028 || u == 0x2029 ||
    u == 0x202F || u == 0x205F || u == 0x3000 || u == 0xFEFF
  }

  /** True when `s` holds nothing but whitespace (`!s.trim()` in the source). */
  predicate Blank(s: string) {
    forall i :: 0 <= i < |s| ==> IsSpace(s[i])
  }

  /** No two neighbouring characters are both whitespace. */
  predicate NoSpaceRun(s: string) {
    forall i :: 0 <= i < |s| - 1 ==> !(IsSpace(s[i]) && IsSpace(s[i + 1]))
  }

  /** Neither end of `s` is whitespace. */
  predicate IsTrimmed(s: string) {
    s != [] ==> !IsSpace(s[0]) && !IsSpace(s[|s| - 1])
  }

  function TrimStart(s: string): (r: string)
    ensures |r| <= |s| && r == s[|s| - |r|..]
    ensures forall i :: 0 <= i < |s| - |r| ==> IsSpace(s[i])
    ensures r != [] ==> !IsSpace(r[0])
  {
    if s != [] && IsSpace(s[0]) then TrimStart(s[1..]) else s
  }

  function TrimEnd(s: string): (r: string)
    ensures |r| <= |s| && r == s[..|r|]
    ensures forall i :: |r| <= i < |s| ==> IsSpace(s[i])
    ensures r != [] ==> !IsSpace(r[|r| - 1])
  {
    if s != [] && IsSpace(s[|s| - 1]) then TrimEnd(s[..|s| - 1]) else s
  }

  /** `s.trim()`: the text between the first and the last non-whitespace character. */
  function Trim(s: string): string {
    TrimEnd(TrimStart(s))
  }

  /** Trimming leaves no whitespace at either end, removes only whitespace, and leaves
      nothing exactly when the string was blank. */
  lemma TrimSpec(s: string)
    ensures IsTrimmed(Trim(s))
    ensures Trim(s) == [] <==> Blank(s)
    ensures |Trim(s)| <= |s|
    ensures forall c :: c in Trim(s) ==> c in s
  {
    var t := TrimStart(s);
    var r := TrimEnd(t);
    assert r != [] ==> r[0] == t[0];
    assert forall c :: c in r ==> c in t;
  }

  lemma TrimOfTrimmed(s: string)
    requires IsTrimmed(s)
    ensures Trim(s) == s
  {
  }

  /** Trimming twice is trimming once. */
  lemma TrimIdempotent(s: string)
    ensures Trim(Trim(s)) == Trim(s)
  {
    TrimSpec(s);
    TrimOfTrimmed(Trim(s));
  }

  /** `s.replace(/\s+/g, ' ')`: every maximal run of whitespace becomes one space. */
  function CollapseSpace(s: string): string {
    CollapseFrom(s, false)
  }

  /** The scan behind `CollapseSpace`: `inRun` says the previous character was whitespace,
      whose run has already been replaced by its space. */
  function CollapseFrom(s: string, inRun: bool): string
    decreases |s|
  {
    if s == [] then []
    else if IsSpace(s[0]) then
      (if inRun then CollapseFrom(s[1..], true) else [' '] + CollapseFrom(s[1..], true))
    else [s[0]] + CollapseFrom(s[1..], false)
  }

  /** After collapsing, no two whitespace characters are neighbours and every whitespace
      character left is a plain space; the result is empty only for the empty string, is no
      longer than the input, and starts and ends with whitespace exactly when the input does. */
  lemma CollapseSpaceSpec(s: string)
    ensures NoSpaceRun(CollapseSpace(s))
    ensures forall i :: 0 <= i < |CollapseSpace(s)| && IsSpace(CollapseSpace(s)[i]) ==>
      CollapseSpace(s)[i] == ' '
    ensures CollapseSpace(s) == [] <==> s == []
    ensures CollapseSpace(s) != [] ==> (IsSpace(CollapseSpace(s)[0]) <==> IsSpace(s[0]))
    ensures CollapseSpace(s) != [] ==>
      (IsSpace(CollapseSpace(s)[|CollapseSpace(s)| - 1]) <==> IsSpace(s[|s| - 1]))
    ensures |CollapseSpace(s)| <= |s|
  {
    CollapseRuns(s, false);
    CollapseLast(s, false);
    CollapseLength(s, false);
  }

  /** True when `s` holds no whitespace at all. */
  predicate NoSpace(s: string) {
    forall i :: 0 <= i < |s| ==> !IsSpace(s[i])
  }

  /** `replace(/\s+/g, ' ')` piece by piece: a string without whitespace is kept as it is,
      and a maximal whitespace run after a whitespace-free prefix becomes exactly one space,
      the rest being collapsed in the same way. Every string splits uniquely into such
      pieces, so these two equations determine `CollapseSpace` completely. */
  lemma CollapseSpaceRuns(w: string, ws: string, rest: string)
    requires NoSpace(w)
    ensures CollapseSpace(w) == w
    ensures ws != [] && Blank(ws) && (rest == [] || !IsSpace(rest[0])) ==>
      CollapseSpace(w + ws + rest) == w + " " + CollapseSpace(rest)
  {
    CollapseWord(w, []);
    assert w + [] == w;
    if ws != [] && Blank(ws) && (rest == [] || !IsSpace(rest[0])) {
      CollapseWord(w, ws + rest);
      assert w + ws + rest == w + (ws + rest);
      assert (ws + rest)[1..] == ws[1..] + rest;
      CollapseRun(ws[1..], rest);
    }
  }

  /** Characters other than whitespace are copied one by one. */
  lemma {:induction false} CollapseWord(w: string, t: string)
    requires NoSpace(w)
    ensures CollapseFrom(w + t, false) == w + CollapseFrom(t, false)
    decreases |w|
  {
    if w != [] {
      var wt := w + t;
      assert wt[0] == w[0] && !IsSpace(wt[0]) && wt[1..] == w[1..] + t;
      assert CollapseFrom(wt, false) == [w[0]] + CollapseFrom(w[1..] + t, false);
      CollapseWord(w[1..], t);
      assert w == [w[0]] + w[1..];
    } else {
      assert w + t == t;
    }
  }

  /** Inside a run that has already produced its space, the rest of the run is dropped, and
      a run's end is where scanning resumes afresh. */
  lemma {:induction false} CollapseRun(ws: string, t: string)
    requires Blank(ws) && (t == [] || !IsSpace(t[0]))
    ensures CollapseFrom(ws + t, true) == CollapseFrom(t, false)
    decreases |ws|
  {
    if ws != [] {
      assert (ws + t)[1..] == ws[1..] + t;
      CollapseRun(ws[1..], t);
    } else {
      assert ws + t == t;
    }
  }

  lemma {:induction false} CollapseLength(s: string, inRun: bool)
    ensures |CollapseFrom(s, inRun)| <= |s|
    decreases |s|
  {
    if s != [] {
      CollapseLength(s[1..], IsSpace(s[0]));
    }
  }

  /** Whitespace in the output comes one plain space at a time, and none follows a run
      already replaced. */
  lemma {:induction false} CollapseRuns(s: string, inRun: bool)
    ensures NoSpaceRun(CollapseFrom(s, inRun))
    ensures forall i :: 0 <= i < |CollapseFrom(s, inRun)| && IsSpace(CollapseFrom(s, inRun)[i]) ==>
      CollapseFrom(s, inRun)[i] == ' '
    ensures inRun && CollapseFrom(s, inRun) != [] ==> !IsSpace(CollapseFrom(s, inRun)[0])
    decreases |s|
  {
    if s != [] {
      var sp := IsSpace(s[0]);
      var rt := CollapseFrom(s[1..], sp);
      CollapseRuns(s[1..], sp);
      if !(sp && inRun) {
        var r := CollapseFrom(s, inRun);
        assert r == [if sp then ' ' else s[0]] + rt;
        assert forall i :: 1 <= i < |r| ==> r[i] == rt[i - 1];
      }
    }
  }

  /** The output ends with whitespace exactly when the input does; it is empty only when the
      input is, or when the input is a continuation of a run that is all whitespace. */
  lemma {:induction false} CollapseLast(s: string, inRun: bool)
    ensures CollapseFrom(s, inRun) != [] ==>
      (IsSpace(CollapseFrom(s, inRun)[|CollapseFrom(s, inRun)| - 1]) <==> IsSpace(s[|s| - 1]))
    ensures CollapseFrom(s, inRun) == [] && s != [] ==> inRun && IsSpace(s[|s| - 1])
    ensures !inRun && s != [] ==>
      CollapseFrom(s, inRun) != [] && (IsSpace(CollapseFrom(s, inRun)[0]) <==> IsSpace(s[0]))
    decreases |s|
  {
    if s != [] {
      var sp := IsSpace(s[0]);
      var rt := CollapseFrom(s[1..], sp);
      CollapseLast(s[1..], sp);
      assert s[1..] != [] ==> s[|s| - 1] == s[1..][|s[1..]| - 1];
      if !(sp && inRun) {
        var r := CollapseFrom(s, inRun);
        assert r == [if sp then ' ' else s[0]] + rt;
        if rt != [] {
          assert r[|r| - 1] == rt[|rt| - 1];
        }
      }
    }
  }

  /** `String.prototype.toLowerCase` on one character: ASCII and Latin-1 capitals. */
  function LowerChar(c: char): char {
    if 'A' <= c <= 'Z' || ('\U{C0}' <= c <= '\U{DE}' && c != '\U{D7}') then (c as int + 32) as char
    else c
  }

  /** `s.toLowerCase()`, character by character. */
  function Lower(s: string): (r: string)
    ensures |r| == |s|
    ensures forall i :: 0 <= i < |s| ==> r[i] == LowerChar(s[i])
  {
    seq(|s|, i requires 0 <= i < |s| => LowerChar(s[i]))
  }

  /** Lower-casing keeps whitespace whitespace and everything else not whitespace. */
  lemma LowerCharKeepsSpace(c: char)
    ensures IsSpace(LowerChar(c)) <==> IsSpace(c)
  {
  }

  /** A lower-cased string is its own lower case. */
  lemma LowerIdempotent(s: string)
    ensures Lower(Lower(s)) == Lower(s)
  {
  }

  lemma LowerKeepsShape(s: string)
    ensures NoSpaceRun(s) ==> NoSpaceRun(Lower(s))
    ensures forall i :: 0 <= i < |s| ==> (IsSpace(Lower(s)[i]) <==> IsSpace(s[i]))
  {
    forall i | 0 <= i < |s| ensures IsSpace(Lower(s)[i]) <==> IsSpace(s[i]) {
      LowerCharKeepsSpace(s[i]);
    }
  }

  /** `s.slice(0, n)`, on a string or an array. */
  function Take<T>(s: seq<T>, n: nat): (r: seq<T>)
    ensures r <= s
    ensures |r| == if |s| <= n then |s| else n
  {
    if |s| <= n then s else s[..n]
  }

  /** `s.includes(q)`: `q` occurs in `s` at some position. */
  predicate Includes(s: string, q: string) {
    q <= s || (s != [] && Includes(s[1..], q))
  }

  /** `Includes` means an occurrence at some index. */
  lemma {:induction false} IncludesAt(s: string, q: string)
    ensures Includes(s, q) <==> exists i :: 0 <= i <= |s| - |q| && q <= s[i..]
  {
    if s == [] {
      assert q <= s ==> q <= s[0..];
    } else if q <= s {
      assert q <= s[0..];
    } else {
      IncludesAt(s[1..], q);
      if Includes(s, q) {
        var i :| 0 <= i <= |s| - 1 - |q| && q <= s[1..][i..];
        assert s[1..][i..] == s[i + 1..];
      } else {
        forall i | 0 <= i <= |s| - |q| ensures !(q <= s[i..]) {
          if i > 0 { assert s[1..][i - 1..] == s[i..]; }
        }
      }
    }
  }

  /** `s.split(sep)`: the pieces between the separators, always at least one. */
  function Split(s: string, sep: char): (parts: seq<string>)
    ensures |parts| >= 1
    ensures forall k :: 0 <= k < |parts| ==> sep !in parts[k]
  {
    if s == [] then [[]]
    else
      var rest := Split(s[1..], sep);
      if s[0] == sep then [[]] + rest
      else [[s[0]] + rest[0]] + rest[1..]
  }

  /** `parts.join(sep)`. */
  function Join(parts: seq<string>, sep: char): string
    requires |parts| >= 1
  {
    if |parts| == 1 then parts[0] else parts[0] + [sep] + Join(parts[1..], sep)
  }

  /** Splitting and joining on the same separator gives the string back. */
  lemma {:induction false} JoinSplit(s: string, sep: char)
    ensures Join(Split(s, sep), sep) == s
  {
    if s != [] {
      var rest := Split(s[1..], sep);
      JoinSplit(s[1..], sep);
      if s[0] == sep {
        assert ([[]] + rest)[1..] == rest;
      } else {
        var parts := [[s[0]] + rest[0]] + rest[1..];
        if |rest| > 1 {
          assert parts[1..] == rest[1..];
          assert Join(rest, sep) == rest[0] + [sep] + Join(rest[1..], sep);
        }
      }
    }
  }

  /** `Split` undoes `Join` when no piece contains the separator. */
  lemma {:induction false} SplitJoin(parts: seq<string>, sep: char)
    requires |parts| >= 1
    requires forall k :: 0 <= k < |parts| ==> sep !in parts[k]
    ensures Split(Join(parts, sep), sep) == parts
  {
    if |parts| == 1 {
      SplitNoSep(parts[0], sep);
    } else {
      SplitJoin(parts[1..], sep);
      SplitAppend(parts[0], Join(parts[1..], sep), sep);
    }
  }

  lemma {:induction false} SplitNoSep(s: string, sep: char)
    requires sep !in s
    ensures Split(s, sep) == [s]
  {
    if s != [] {
      SplitNoSep(s[1..], sep);
      assert [s[0]] + s[1..] == s;
    }
  }

  /** Splitting `a + [sep] + b`, where `a` has no separator, gives `a` followed by the pieces
      of `b`. */
  lemma {:induction false} SplitAppend(a: string, b: string, sep: char)
    requires sep !in a
    ensures Split(a + [sep] + b, sep) == [a] + Split(b, sep)
  {
    if a == [] {
      assert a + [sep] + b == [sep] + b;
      assert ([sep] + b)[1..] == b;
    } else {
      assert (a + [sep] + b)[1..] == a[1..] + [sep] + b;
      SplitAppend(a[1..], b, sep);
      assert [a[0]] + a[1..] == a;
    }
  }

  /** A joined text is at least as long as its first piece. */
  lemma {:induction false} JoinLength(parts: seq<string>, sep: char)
    requires |parts| >= 1
    ensures |Join(parts, sep)| >= |parts[0]|
  {
  }

  /** The default comparison of `Array.prototype.sort`: `a` sorts before `b` by code units. */
  predicate Less(a: string, b: string) {
    if a == [] then b != []
    else if b == [] then false
    else if a[0] != b[0] then a[0] < b[0]
    else Less(a[1..], b[1..])
  }

  lemma {:induction false} LessIrreflexive(a: string)
    ensures !Less(a, a)
  {
    if a != [] { LessIrreflexive(a[1..]); }
  }

  lemma {:induction false} LessTransitive(a: string, b: string, c: string)
    requires Less(a, b) && Less(b, c)
    ensures Less(a, c)
  {
    if a != [] && b != [] && c != [] && a[0] == b[0] && b[0] == c[0] {
      LessTransitive(a[1..], b[1..], c[1..]);
    }
  }

  lemma {:induction false} LessTotal(a: string, b: string)
    requires a != b
    ensures Less(a, b) || Less(b, a)
  {
    if a != [] && b != [] && a[0] == b[0] {
      assert a == [a[0]] + a[1..] && b == [b[0]] + b[1..];
      LessTotal(a[1..], b[1..]);
    }
  }

  predicate StrictlySorted(xs: seq<string>) {
    forall i, j :: 0 <= i < j < |xs| ==> Less(xs[i], xs[j])
  }

  function Insert(x: string, ys: seq<string>): (r: seq<string>)
    requires StrictlySorted(ys) && x !in ys
    ensures StrictlySorted(r)
    ensures |r| == |ys| + 1
    ensures forall z :: z in r <==> z == x || z in ys
  {
    if ys == [] then [x]
    else if Less(x, ys[0]) then
      forall j | 0 < j < |ys| ensures Less(x, ys[j]) { LessTransitive(x, ys[0], ys[j]); }
      [x] + ys
    else
      LessTotal(x, ys[0]);
      assert StrictlySorted(ys[1..]);
      var rest := Insert(x, ys[1..]);
      forall z | z in rest ensures Less(ys[0], z) {
        if z != x {
          var j :| 0 <= j < |ys[1..]| && ys[1..][j] == z;
          assert ys[j + 1] == z;
        }
      }
      [ys[0]] + rest
  }

  /** `Array.prototype.sort()` applied to distinct strings: insertion sort by code units. */
  function SortStrings(xs: seq<string>): (r: seq<string>)
    requires Distinct(xs)
    ensures StrictlySorted(r)
    ensures |r| == |xs|
    ensures forall z :: z in r <==> z in xs
  {
    if xs == [] then []
    else
      var init := xs[..|xs| - 1];
      assert forall z :: z in init ==> z in xs;
      assert xs == init + [xs[|xs| - 1]];
      Insert(xs[|xs| - 1], SortStrings(init))
  }

  /** A strictly sorted sequence has no duplicates. */
  lemma StrictlySortedDistinct(xs: seq<string>)
    requires StrictlySorted(xs)
    ensures Distinct(xs)
  {
    forall i, j | 0 <= i < j < |xs| ensures xs[i] != xs[j] {
      if xs[i] == xs[j] { LessIrreflexive(xs[i]); }
    }
  }
}
