/** The two regular expressions of the linking engine, as the JavaScript engine runs them:
    the wiki-link pattern `/\[\[([^\]\n]+)\]\]/g` searched with `exec` from `lastIndex`, and
    the tag pattern `/<[^>]*>/g` used by `replace`. */
module WikiPattern {

  import opened Notes

  /** One match of the wiki-link pattern: where it starts and what its group captured. */
  datatype Match = Match(start: nat, inner: string)

  /** The index just past the match (`match.index + match[0].length`). */
  function MatchEnd(m: Match): nat {
    m.start + |m.inner| + 4
  }

  /** A character of the class `[^\]\n]`. */
  predicate LinkChar(c: char) {
    c != ']' && c != '\n'
  }

  /** A possible group capture: one or more characters of `[^\]\n]`. */
  predicate IsLinkText(v: string) {
    v != [] && forall k :: 0 <= k < |v| ==> LinkChar(v[k])
  }

  /** The end of the longest run of `[^\]\n]` characters that starts at `i`. */
  function RunEnd(s: string, i: nat): (e: nat)
    requires i <= |s|
    ensures i <= e <= |s|
    ensures forall k :: i <= k < e ==> LinkChar(s[k])
    ensures e < |s| ==> !LinkChar(s[e])
    decreases |s| - i
  {
    if i < |s| && LinkChar(s[i]) then RunEnd(s, i + 1) else i
  }

  /** The pattern matches at `p`. A shorter run than the longest one would be followed by a
      character of the class, not by `]`, so backtracking never finds another match: the
      pattern matches exactly when the longest run is non-empty and is followed by `]]`. */
  predicate MatchesAt(s: string, p: nat) {
    p + 2 <= |s| && s[p] == '[' && s[p + 1] == '[' &&
    var e := RunEnd(s, p + 2);
    p + 2 < e && e + 2 <= |s| && s[e] == ']' && s[e + 1] == ']'
  }

  /** `m` is the match of the pattern at `m.start` in `s`, and `s` holds `[[inner]]` there. */
  predicate IsMatchIn(s: string, m: Match) {
    MatchesAt(s, m.start) && MatchEnd(m) <= |s| && IsLinkText(m.inner) &&
    m.inner == s[m.start + 2..RunEnd(s, m.start + 2)] &&
    s[m.start..MatchEnd(m)] == "[[" + m.inner + "]]"
  }

  /** `pattern.exec(s)` with `pattern.lastIndex == from`: the first position at or after
      `from` where the pattern matches, if any (`ExecLeftmost` states what it finds). */
  function Exec(s: string, from: nat): (m: Option<Match>)
    requires from <= |s|
    ensures m.Some? ==> from <= m.value.start && MatchEnd(m.value) <= |s|
    decreases |s| - from
  {
    if MatchesAt(s, from) then Some(Match(from, s[from + 2..RunEnd(s, from + 2)]))
    else if from == |s| then None
    else Exec(s, from + 1)
  }

  lemma MatchAtIsMatch(s: string, p: nat)
    requires MatchesAt(s, p)
    ensures IsMatchIn(s, Match(p, s[p + 2..RunEnd(s, p + 2)]))
  {
    var e := RunEnd(s, p + 2);
    var m := Match(p, s[p + 2..e]);
    assert s[p..MatchEnd(m)] == s[p..p + 2] + s[p + 2..e] + s[e..e + 2];
  }

  /** `exec` finds the leftmost match at or after `from`, and reports none only when there is
      none. */
  lemma {:induction false} ExecLeftmost(s: string, from: nat)
    requires from <= |s|
    ensures Exec(s, from).Some? ==> IsMatchIn(s, Exec(s, from).value)
    ensures Exec(s, from).Some? ==>
      forall q :: from <= q < Exec(s, from).value.start ==> !MatchesAt(s, q)
    ensures Exec(s, from).None? ==> forall q :: from <= q <= |s| ==> !MatchesAt(s, q)
    decreases |s| - from
  {
    if MatchesAt(s, from) {
      MatchAtIsMatch(s, from);
    } else if from < |s| {
      ExecLeftmost(s, from + 1);
    }
  }

  /** The text from `from` on is the text before the match, the match, and the rest. */
  lemma ExecSplits(s: string, from: nat)
    requires from <= |s| && Exec(s, from).Some?
    ensures var m := Exec(s, from).value;
      s[from..] == s[from..m.start] + "[[" + m.inner + "]]" + s[MatchEnd(m)..]
  {
    var m := Exec(s, from).value;
    ExecLeftmost(s, from);
    var a, w, b := s[from..m.start], s[m.start..MatchEnd(m)], s[MatchEnd(m)..];
    Slices(s, from, m.start, MatchEnd(m));
    assert w == "[[" + m.inner + "]]";
    Bracketed(a, m.inner, b);
  }

  lemma Slices<T>(s: seq<T>, i: nat, j: nat, k: nat)
    requires i <= j <= k <= |s|
    ensures s[i..] == s[i..j] + s[j..k] + s[k..]
  {
  }

  lemma Bracketed(a: string, inner: string, b: string)
    ensures a + ("[[" + inner + "]]") + b == a + "[[" + inner + "]]" + b
  {
  }

  /** Cutting a string never creates a match: a match in `s[a..b]` is a match in `s`. */
  lemma {:induction false} RunEndInSlice(s: string, a: nat, b: nat, i: nat)
    requires a <= b <= |s| && i <= b - a
    requires RunEnd(s[a..b], i) < b - a
    ensures RunEnd(s, a + i) == a + RunEnd(s[a..b], i)
    decreases b - a - i
  {
    var t := s[a..b];
    if LinkChar(t[i]) {
      RunEndInSlice(s, a, b, i + 1);
    }
  }

  lemma MatchInSlice(s: string, a: nat, b: nat, p: nat)
    requires a <= b <= |s|
    requires MatchesAt(s[a..b], p)
    ensures MatchesAt(s, a + p)
  {
    RunEndInSlice(s, a, b, p + 2);
  }

  /** The first index of `c` in `s` at or after `from`, if any. */
  function IndexOf(s: string, c: char, from: nat): (r: Option<nat>)
    requires from <= |s|
    ensures r.Some? ==> from <= r.value < |s| && s[r.value] == c
    ensures r.Some? ==> forall k :: from <= k < r.value ==> s[k] != c
    ensures r.None? ==> forall k :: from <= k < |s| ==> s[k] != c
    decreases |s| - from
  {
    if from == |s| then None
    else if s[from] == c then Some(from)
    else IndexOf(s, c, from + 1)
  }

  /** `s.replace(/<[^>]*>/g, ' ')`: each `<` that has a `>` somewhere after it starts a tag
      running to the first such `>`, and the tag becomes one space. */
  function StripTags(s: string): (r: string)
    ensures |r| <= |s|
    ensures forall c :: c in r ==> c == ' ' || c in s
    decreases |s|
  {
    if s == [] then []
    else if s[0] == '<' && IndexOf(s, '>', 1).Some? then
      var rest := StripTags(s[IndexOf(s, '>', 1).value + 1..]);
      assert forall c :: c in s[IndexOf(s, '>', 1).value + 1..] ==> c in s;
      [' '] + rest
    else
      var rest := StripTags(s[1..]);
      assert forall c :: c in s[1..] ==> c in s;
      [s[0]] + rest
  }

  /** No tag survives: after stripping, no `<` is followed anywhere by a `>`. */
  lemma {:induction false} StripTagsLeavesNoTag(s: string)
    ensures forall i, j :: 0 <= i < j < |StripTags(s)| && StripTags(s)[i] == '<' ==>
      StripTags(s)[j] != '>'
  {
    if s != [] {
      if s[0] == '<' && IndexOf(s, '>', 1).Some? {
        StripTagsLeavesNoTag(s[IndexOf(s, '>', 1).value + 1..]);
        var rest := StripTags(s[IndexOf(s, '>', 1).value + 1..]);
        assert StripTags(s) == [' '] + rest;
      } else {
        StripTagsLeavesNoTag(s[1..]);
        var rest := StripTags(s[1..]);
        assert StripTags(s) == [s[0]] + rest;
        if s[0] == '<' {
          forall j | 0 <= j < |rest| ensures rest[j] != '>' {
            assert rest[j] in rest;
            assert forall k :: 0 <= k < |s[1..]| ==> s[1..][k] == s[k + 1];
          }
        }
      }
    }
  }

  /** No `<` is followed anywhere by a `>`: the text holds no tag. */
  predicate NoTag(s: string) {
    forall i, j :: 0 <= i < j < |s| && s[i] == '<' ==> s[j] != '>'
  }

  /** Text without a tag is left as it is. */
  lemma {:induction false} StripTagsKeepsPlain(s: string)
    requires NoTag(s)
    ensures StripTags(s) == s
    decreases |s|
  {
    if s != [] {
      if s[0] == '<' {
        assert IndexOf(s, '>', 1).None?;
      }
      assert NoTag(s[1..]) by {
        forall i, j | 0 <= i < j < |s[1..]| && s[1..][i] == '<' ensures s[1..][j] != '>' {
          assert s[1..][i] == s[i + 1] && s[1..][j] == s[j + 1];
        }
      }
      StripTagsKeepsPlain(s[1..]);
      assert s == [s[0]] + s[1..];
    }
  }

  /** The first tag of the text becomes one space: the text before it, which has no `<`, is
      kept, the tag from its `<` to the first `>` is replaced, and the rest is stripped in
      turn. */
  lemma StripTagsFirstTag(a: string, t: string, b: string)
    requires '<' !in a && '>' !in t
    ensures StripTags(a + "<" + t + ">" + b) == a + " " + StripTags(b)
  {
    var u := "<" + t + ">" + b;
    assert a + "<" + t + ">" + b == a + u;
    StripTagsBefore(a, u);
    var e := |t| + 1;
    assert u[e] == '>' && forall k :: 1 <= k < e ==> u[k] == t[k - 1];
    assert forall k :: 1 <= k < e ==> u[k] != '>' by {
      forall k | 1 <= k < e ensures u[k] != '>' {
        assert u[k] in t;
      }
    }
    assert IndexOf(u, '>', 1) == Some(e);
    assert u[e + 1..] == b;
  }

  /** Text with no `<` passes through the stripping untouched. */
  lemma {:induction false} StripTagsBefore(a: string, u: string)
    requires '<' !in a
    ensures StripTags(a + u) == a + StripTags(u)
    decreases |a|
  {
    if a != [] {
      var au := a + u;
      assert au[0] == a[0] && au[0] != '<' && au[1..] == a[1..] + u;
      assert StripTags(au) == [a[0]] + StripTags(a[1..] + u);
      StripTagsBefore(a[1..], u);
      assert a == [a[0]] + a[1..];
    } else {
      assert a + u == u;
    }
  }
}
