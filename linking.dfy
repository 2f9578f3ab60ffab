/** Wiki-style linking: `[[Note Title]]` tokens in note content, the index from normalised
    titles to note ids, and the graph of mentions and backlinks built from both. */
module Linking {

  import opened Notes
  import opened JsString
  import opened JsCollections
  import opened WikiPattern

  /** Link tokens are cut to this many characters. */
  const MaxTokenLength := 120

  // ---------------------------------------------------------------------------------------
  // Tokenising content into plain text and wiki-links.

  /** One part of tokenised content. */
  datatype Segment = Text(value: string) | WikiLink(value: string)

  /** The content a segment stands for: text as it is, a link wrapped in its brackets. */
  function Show(p: Segment): string {
    match p
    case Text(v) => v
    case WikiLink(v) => "[[" + v + "]]"
  }

  function Render(parts: seq<Segment>): string {
    if parts == [] then [] else Show(parts[0]) + Render(parts[1..])
  }

  /** The text segment before a match that starts at or after `last`, if there is text. */
  function TextBefore(s: string, last: nat, m: Match): seq<Segment>
    requires last <= m.start <= |s|
  {
    if m.start > last then [Text(s[last..m.start])] else []
  }

  /** The segments the tokenizer produces for `s` once it has consumed `s[..last]`. */
  function TokensFrom(s: string, last: nat): seq<Segment>
    requires last <= |s|
    decreases |s| - last
  {
    match Exec(s, last)
    case None => if last < |s| then [Text(s[last..])] else []
    case Some(m) => TextBefore(s, last, m) + [WikiLink(m.inner)] + TokensFrom(s, MatchEnd(m))
  }

  /** One step of the tokenizer: the text before the next match, the match, and the rest. */
  lemma TokensFromStep(s: string, last: nat)
    requires last <= |s| && Exec(s, last).Some?
    ensures TokensFrom(s, last) ==
      TextBefore(s, last, Exec(s, last).value) + [WikiLink(Exec(s, last).value.inner)] +
      TokensFrom(s, MatchEnd(Exec(s, last).value))
  {
  }

  /** The same step, seen from the segments produced so far, as the tokenizer takes it. */
  lemma TokensFromNext(s: string, last: nat, parts: seq<Segment>)
    requires last <= |s| && Exec(s, last).Some?
    ensures var m := Exec(s, last).value;
      m.start > last ==> (parts + TokensFrom(s, last) ==
        (parts + [Text(s[last..m.start])] + [WikiLink(m.inner)]) + TokensFrom(s, MatchEnd(m)))
    ensures var m := Exec(s, last).value;
      m.start == last ==> (parts + TokensFrom(s, last) ==
        (parts + [WikiLink(m.inner)]) + TokensFrom(s, MatchEnd(m)))
  {
    var m := Exec(s, last).value;
    TokensFromStep(s, last);
    if m.start == last {
      assert TextBefore(s, last, m) == [];
      assert [] + [WikiLink(m.inner)] == [WikiLink(m.inner)];
    }
  }

  /** Once no match is left, only the remaining text, if any, is still to come. */
  lemma TokensFromLast(s: string, last: nat, parts: seq<Segment>)
    requires last <= |s| && Exec(s, last).None?
    ensures last < |s| ==> parts + TokensFrom(s, last) == parts + [Text(s[last..])]
    ensures last == |s| ==> parts + TokensFrom(s, last) == parts
  {
    if last == |s| {
      assert parts + [] == parts;
    }
  }

  function Tokens(s: string): seq<Segment> {
    TokensFrom(s, 0)
  }

  /** One turn of the tokenizer's loop: the text before the match, if any, then the link. */
  method PushMatch(s: string, last: nat, parts: seq<Segment>) returns (more: seq<Segment>)
    requires last <= |s| && Exec(s, last).Some?
    ensures more + TokensFrom(s, MatchEnd(Exec(s, last).value)) == parts + TokensFrom(s, last)
  {
    var m := Exec(s, last).value;
    TokensFromNext(s, last, parts);
    more := parts;
    if m.start > last {
      more := more + [Text(s[last..m.start])];
    }
    more := more + [WikiLink(m.inner)];
  }

  /** `tokenizeContentWithLinks`: the text between links, and each link's inner text. */
  method TokenizeContentWithLinks(content: string) returns (parts: seq<Segment>)
    ensures parts == Tokens(content)
    ensures Render(parts) == content
  {
    parts := [];
    if content == [] {
      return;
    }
    var lastIndex := 0;
    var m := Exec(content, lastIndex);
    while m.Some?
      invariant lastIndex <= |content|
      invariant m == Exec(content, lastIndex)
      invariant parts + TokensFrom(content, lastIndex) == Tokens(content)
      decreases |content| - lastIndex
    {
      parts := PushMatch(content, lastIndex, parts);
      lastIndex := MatchEnd(m.value);
      m := Exec(content, lastIndex);
    }
    TokensFromLast(content, lastIndex, parts);
    if lastIndex < |content| {
      parts := parts + [Text(content[lastIndex..])];
    }
    RenderTokens(content);
  }

  lemma {:induction false} RenderAppend(a: seq<Segment>, b: seq<Segment>)
    ensures Render(a + b) == Render(a) + Render(b)
  {
    if a == [] {
      assert a + b == b;
      assert Render(a) + Render(b) == Render(b);
    } else {
      assert (a + b)[0] == a[0];
      assert (a + b)[1..] == a[1..] + b;
      RenderAppend(a[1..], b);
    }
  }

  /** Rendering the segments gives back the content they came from. */
  lemma {:induction false} RenderTokensFrom(s: string, last: nat)
    requires last <= |s|
    ensures Render(TokensFrom(s, last)) == s[last..]
    decreases |s| - last
  {
    var r := Exec(s, last);
    if r.None? {
      if last < |s| {
        assert TokensFrom(s, last) == [Text(s[last..])];
        RenderSingle(Text(s[last..]));
      } else {
        assert TokensFrom(s, last) == [];
      }
    } else {
      var m := r.value;
      var e := MatchEnd(m);
      var rest := TokensFrom(s, e);
      TokensFromStep(s, last);
      assert TokensFrom(s, last) == TextBefore(s, last, m) + [WikiLink(m.inner)] + rest;
      RenderPieces(s, last, m, rest);
      RenderTokensFrom(s, e);
      ExecSplits(s, last);
      Bracketed(s[last..m.start], m.inner, s[e..]);
    }
  }

  /** Rendering one step of the tokenizer: the text before the match, the link written back
      with its brackets, then whatever the rest renders to. */
  lemma RenderPieces(s: string, last: nat, m: Match, rest: seq<Segment>)
    requires last <= m.start <= |s|
    ensures Render(TextBefore(s, last, m) + [WikiLink(m.inner)] + rest) ==
      s[last..m.start] + Show(WikiLink(m.inner)) + Render(rest)
  {
    var pre := TextBefore(s, last, m);
    var link := [WikiLink(m.inner)];
    RenderAppend(pre + link, rest);
    RenderAppend(pre, link);
    RenderSingle(WikiLink(m.inner));
    if m.start > last {
      RenderSingle(Text(s[last..m.start]));
    } else {
      assert s[last..m.start] == [];
    }
  }

  lemma RenderSingle(p: Segment)
    ensures Render([p]) == Show(p)
  {
    assert Render([p]) == Show(p) + Render([]);
  }

  lemma RenderTokens(s: string)
    ensures Render(Tokens(s)) == s
  {
    RenderTokensFrom(s, 0);
  }

  /** The content has no match of the link pattern anywhere. */
  predicate NoLink(v: string) {
    forall q :: 0 <= q <= |v| ==> !MatchesAt(v, q)
  }

  /** No link starts inside `s[a..b]` when none starts in `s` at positions `a` to `b - 1`. */
  lemma NoLinkInSlice(s: string, a: nat, b: nat)
    requires a <= b <= |s|
    requires forall q :: a <= q < b ==> !MatchesAt(s, q)
    ensures NoLink(s[a..b])
  {
    forall q | 0 <= q <= b - a ensures !MatchesAt(s[a..b], q) {
      if MatchesAt(s[a..b], q) {
        MatchInSlice(s, a, b, q);
      }
    }
  }

  /** Every text segment is non-empty and holds no link, so tokenising it again gives just
      that segment (`TextSegmentStable`). */
  lemma {:induction false} TokensFromTexts(s: string, last: nat)
    requires last <= |s|
    ensures forall i :: 0 <= i < |TokensFrom(s, last)| && TokensFrom(s, last)[i].Text? ==>
      TokensFrom(s, last)[i].value != [] && NoLink(TokensFrom(s, last)[i].value)
    decreases |s| - last
  {
    ExecLeftmost(s, last);
    var r := Exec(s, last);
    if r.None? {
      if last < |s| {
        NoLinkInSlice(s, last, |s|);
        assert s[last..] == s[last..|s|];
      }
    } else {
      var m := r.value;
      TokensFromStep(s, last);
      TokensFromTexts(s, MatchEnd(m));
      if m.start > last {
        NoLinkInSlice(s, last, m.start);
      }
    }
  }

  /** Every link segment holds one or more characters other than `]` and a line break. */
  lemma {:induction false} TokensFromLinks(s: string, last: nat)
    requires last <= |s|
    ensures forall i :: 0 <= i < |TokensFrom(s, last)| && TokensFrom(s, last)[i].WikiLink? ==>
      IsLinkText(TokensFrom(s, last)[i].value)
    decreases |s| - last
  {
    ExecLeftmost(s, last);
    var r := Exec(s, last);
    if r.Some? {
      TokensFromStep(s, last);
      TokensFromLinks(s, MatchEnd(r.value));
    }
  }

  /** No two text segments are neighbours: the text between two links is one segment. */
  lemma {:induction false} TokensFromAlternate(s: string, last: nat)
    requires last <= |s|
    ensures forall i :: 0 <= i < |TokensFrom(s, last)| - 1 && TokensFrom(s, last)[i].Text? ==>
      TokensFrom(s, last)[i + 1].WikiLink?
    decreases |s| - last
  {
    var r := Exec(s, last);
    if r.Some? {
      TokensFromStep(s, last);
      TokensFromAlternate(s, MatchEnd(r.value));
    }
  }

  /** A text segment tokenises to itself. */
  lemma TextSegmentStable(v: string)
    requires v != [] && NoLink(v)
    ensures Tokens(v) == [Text(v)]
  {
    ExecLeftmost(v, 0);
  }

  /** The inner texts of the link segments, in order. */
  function LinkValues(parts: seq<Segment>): seq<string> {
    if parts == [] then []
    else (if parts[0].WikiLink? then [parts[0].value] else []) + LinkValues(parts[1..])
  }

  lemma {:induction false} LinkValuesAppend(a: seq<Segment>, b: seq<Segment>)
    ensures LinkValues(a + b) == LinkValues(a) + LinkValues(b)
  {
    if a != [] {
      assert (a + b)[0] == a[0];
      assert (a + b)[1..] == a[1..] + b;
      LinkValuesAppend(a[1..], b);
    } else {
      assert a + b == b;
    }
  }

  // ---------------------------------------------------------------------------------------
  // Extracting normalised link tokens.

  /** The group captures of the successive matches that `exec` finds from `from` on. */
  function CapturesFrom(s: string, from: nat): seq<string>
    requires from <= |s|
    decreases |s| - from
  {
    match Exec(s, from)
    case None => []
    case Some(m) => [m.inner] + CapturesFrom(s, MatchEnd(m))
  }

  lemma CapturesFromStep(s: string, from: nat)
    requires from <= |s| && Exec(s, from).Some?
    ensures CapturesFrom(s, from) ==
      [Exec(s, from).value.inner] + CapturesFrom(s, MatchEnd(Exec(s, from).value))
  {
  }

  /** The tokenizer and the link extractor see the same links, in the same order. */
  lemma {:induction false} CapturesAreLinkValues(s: string, last: nat)
    requires last <= |s|
    ensures CapturesFrom(s, last) == LinkValues(TokensFrom(s, last))
    decreases |s| - last
  {
    match Exec(s, last)
    case None =>
    case Some(m) =>
      var pre := TextBefore(s, last, m);
      TokensFromStep(s, last);
      CapturesAreLinkValues(s, MatchEnd(m));
      LinkValuesAppend(pre + [WikiLink(m.inner)], TokensFrom(s, MatchEnd(m)));
      LinkValuesAppend(pre, [WikiLink(m.inner)]);
  }

  /** What a well-formed link token looks like: non-empty, at most 120 characters, already
      lower case, no run of whitespace and no whitespace in front. */
  predicate IsToken(t: string) {
    t != [] && |t| <= MaxTokenLength && Lower(t) == t && NoSpaceRun(t) && !IsSpace(t[0])
  }

  /** A capture trimmed, its whitespace runs collapsed, cut to 120 characters, lower-cased. */
  function NormalizeToken(c: string): string {
    Lower(Take(CollapseSpace(Trim(c)), MaxTokenLength))
  }

  /** A capture that is not blank normalises to a well-formed token. */
  lemma NormalizeTokenShape(c: string)
    requires !Blank(c)
    ensures IsToken(NormalizeToken(c))
  {
    TrimSpec(c);
    CollapseSpaceSpec(Trim(c));
    var collapsed := CollapseSpace(Trim(c));
    var cut := Take(collapsed, MaxTokenLength);
    assert forall i :: 0 <= i < |cut| ==> cut[i] == collapsed[i];
    LowerKeepsShape(cut);
    LowerIdempotent(cut);
  }

  /** The tokens of the captures that are not blank, in order, duplicates kept. */
  function NormalizeCaptures(cs: seq<string>): seq<string> {
    if cs == [] then []
    else
      var c := cs[|cs| - 1];
      NormalizeCaptures(cs[..|cs| - 1]) + (if Blank(c) then [] else [NormalizeToken(c)])
  }

  lemma {:induction false} NormalizeCapturesShape(cs: seq<string>)
    ensures forall t :: t in NormalizeCaptures(cs) ==> IsToken(t)
  {
    if cs != [] {
      NormalizeCapturesShape(cs[..|cs| - 1]);
      if !Blank(cs[|cs| - 1]) {
        NormalizeTokenShape(cs[|cs| - 1]);
      }
    }
  }

  lemma NormalizeCapturesSnoc(cs: seq<string>, c: string)
    ensures NormalizeCaptures(cs + [c]) ==
      NormalizeCaptures(cs) + (if Blank(c) then [] else [NormalizeToken(c)])
  {
    assert (cs + [c])[..|cs|] == cs;
  }

  /** The tokens `extractWikiLinks` returns for a note's content; an absent content is `""`. */
  function WikiLinkTokens(content: string): seq<string> {
    if content == [] then [] else Dedup(NormalizeCaptures(CapturesFrom(StripTags(content), 0)))
  }

  /** `extractWikiLinks`: each distinct normalised token once, in first-seen order. */
  method ExtractWikiLinks(content: string) returns (links: seq<string>)
    ensures links == WikiLinkTokens(content)
  {
    if content == [] {
      return [];
    }
    var plain := StripTags(content);
    var seen: seq<string> := [];
    ghost var captured: seq<string> := [];
    ghost var done: seq<string> := [];
    var last := 0;
    var m := Exec(plain, last);
    while m.Some?
      invariant last <= |plain|
      invariant m == Exec(plain, last)
      invariant captured + CapturesFrom(plain, last) == CapturesFrom(plain, 0)
      invariant done == NormalizeCaptures(captured)
      invariant seen == Dedup(done)
      decreases |plain| - last
    {
      ghost var inner, rest := m.value.inner, CapturesFrom(plain, MatchEnd(m.value));
      CapturesFromStep(plain, last);
      assert (captured + [inner]) + rest == captured + ([inner] + rest);
      NormalizeCapturesSnoc(captured, inner);
      captured := captured + [inner];
      var raw := Trim(m.value.inner);
      TrimSpec(m.value.inner);
      last := MatchEnd(m.value);
      if raw != [] {
        raw := Take(CollapseSpace(raw), MaxTokenLength);
        var norm := Lower(raw);
        if norm !in seen {
          seen := seen + [norm];
        }
        DedupSnoc(done, norm);
        done := done + [norm];
      }
      m := Exec(plain, last);
    }
    assert captured == CapturesFrom(plain, 0) by {
      assert CapturesFrom(plain, last) == [];
      assert captured + [] == captured;
    }
    links := seen;
  }

  /** Every token is well formed, and each appears once. */
  lemma WikiLinkTokensShape(content: string)
    ensures Distinct(WikiLinkTokens(content))
    ensures forall t :: t in WikiLinkTokens(content) ==> IsToken(t)
  {
    if content != [] {
      NormalizeCapturesShape(CapturesFrom(StripTags(content), 0));
      DedupSpec(NormalizeCaptures(CapturesFrom(StripTags(content), 0)));
    }
  }

  /** The tokens are exactly the normalised non-blank link texts of the tag-stripped content,
      and they come in the order of their first occurrence there. */
  lemma WikiLinkTokensFromLinks(content: string)
    requires content != []
    ensures forall t :: t in WikiLinkTokens(content) <==>
      t in NormalizeCaptures(LinkValues(Tokens(StripTags(content))))
    ensures forall i, j :: 0 <= i < j < |WikiLinkTokens(content)| ==>
      var ts := NormalizeCaptures(LinkValues(Tokens(StripTags(content))));
      FirstIndex(ts, WikiLinkTokens(content)[i]) < FirstIndex(ts, WikiLinkTokens(content)[j])
  {
    CapturesAreLinkValues(StripTags(content), 0);
    DedupSpec(NormalizeCaptures(CapturesFrom(StripTags(content), 0)));
    DedupFirstOccurrenceOrder(NormalizeCaptures(CapturesFrom(StripTags(content), 0)));
  }

  // ---------------------------------------------------------------------------------------
  // The title index.

  /** A title trimmed, its whitespace runs collapsed, lower-cased. */
  function NormalizeTitle(t: string): string {
    Lower(CollapseSpace(Trim(t)))
  }

  /** The key under which `buildTitleIndex` files a note: none for a missing note or an
      empty title. */
  function TitleKey(n: Option<Note>): Option<string> {
    if n.Some? && n.value.title != [] then Some(NormalizeTitle(n.value.title)) else None
  }

  /** The id a note contributes; a missing note contributes nothing, since it has no key. */
  function IdOf(n: Option<Note>): string {
    if n.Some? then n.value.id else []
  }

  function TitleKeys(notes: seq<Option<Note>>): (keys: seq<Option<string>>)
    ensures |keys| == |notes|
    ensures forall i :: 0 <= i < |notes| ==> keys[i] == TitleKey(notes[i])
  {
    seq(|notes|, i requires 0 <= i < |notes| => TitleKey(notes[i]))
  }

  function NoteIds(notes: seq<Option<Note>>): (ids: seq<string>)
    ensures |ids| == |notes|
    ensures forall i :: 0 <= i < |notes| ==> ids[i] == IdOf(notes[i])
  {
    seq(|notes|, i requires 0 <= i < |notes| => IdOf(notes[i]))
  }

  /** The position of the first `Some(key)` in `keys`, or `|keys|` when there is none. */
  function FirstKey<K(==)>(keys: seq<Option<K>>, key: K): (i: nat)
    ensures i <= |keys|
  {
    if keys == [] then 0
    else
      var init := keys[..|keys| - 1];
      var f := FirstKey(init, key);
      if f < |init| then f else if keys[|keys| - 1] == Some(key) then |init| else |keys|
  }

  lemma {:induction false} FirstKeySpec<K>(keys: seq<Option<K>>, key: K)
    ensures FirstKey(keys, key) < |keys| ==> keys[FirstKey(keys, key)] == Some(key)
    ensures forall j :: 0 <= j < FirstKey(keys, key) ==> keys[j] != Some(key)
  {
    if keys != [] {
      FirstKeySpec(keys[..|keys| - 1], key);
    }
  }

  /** A map filled in order, where a key already present is never overwritten. */
  function FirstWins<K(==), V>(keys: seq<Option<K>>, vals: seq<V>): map<K, V>
    requires |keys| == |vals|
  {
    if keys == [] then map[]
    else
      var m := FirstWins(keys[..|keys| - 1], vals[..|vals| - 1]);
      var k := keys[|keys| - 1];
      if k.Some? && k.value !in m then m[k.value := vals[|vals| - 1]] else m
  }

  lemma {:induction false} FirstWinsSpec<K(!new), V>(keys: seq<Option<K>>, vals: seq<V>)
    requires |keys| == |vals|
    ensures forall key :: key in FirstWins(keys, vals) <==> FirstKey(keys, key) < |keys|
    ensures forall key :: key in FirstWins(keys, vals) ==>
      FirstWins(keys, vals)[key] == vals[FirstKey(keys, key)]
  {
    if keys != [] {
      FirstWinsSpec(keys[..|keys| - 1], vals[..|vals| - 1]);
    }
  }

  lemma FirstWinsSnoc<K, V>(keys: seq<Option<K>>, vals: seq<V>, k: Option<K>, v: V)
    requires |keys| == |vals|
    ensures FirstWins(keys + [k], vals + [v]) ==
      if k.Some? && k.value !in FirstWins(keys, vals) then FirstWins(keys, vals)[k.value := v]
      else FirstWins(keys, vals)
  {
    assert (keys + [k])[..|keys|] == keys;
    assert (vals + [v])[..|vals|] == vals;
  }

  /** The map `buildTitleIndex` builds: notes are filed in array order under their title's
      key, and the first note with a key keeps it. */
  function TitleIndex(notes: seq<Option<Note>>): map<string, string> {
    FirstWins(TitleKeys(notes), NoteIds(notes))
  }

  /** The position of the first note titled `key`, or `|notes|` when there is none. */
  function FirstTitled(notes: seq<Option<Note>>, key: string): nat {
    FirstKey(TitleKeys(notes), key)
  }

  /** The first title wins: a key is present exactly when some note's title normalises to
      it, and it maps to the id of the first such note; no earlier note has that title. */
  lemma TitleIndexFirstWins(notes: seq<Option<Note>>)
    ensures forall key :: key in TitleIndex(notes) <==> FirstTitled(notes, key) < |notes|
    ensures forall key :: key in TitleIndex(notes) ==>
      TitleKey(notes[FirstTitled(notes, key)]) == Some(key) &&
      notes[FirstTitled(notes, key)].Some? &&
      TitleIndex(notes)[key] == notes[FirstTitled(notes, key)].value.id
    ensures forall key, j :: 0 <= j < FirstTitled(notes, key) && j < |notes| ==>
      TitleKey(notes[j]) != Some(key)
  {
    FirstWinsSpec(TitleKeys(notes), NoteIds(notes));
    forall key {
      FirstKeySpec(TitleKeys(notes), key);
    }
  }

  /** `buildTitleIndex`; a missing notes array is the empty one. */
  method BuildTitleIndex(notes: seq<Option<Note>>) returns (idx: map<string, string>)
    ensures idx == TitleIndex(notes)
  {
    idx := map[];
    for i := 0 to |notes|
      invariant idx == TitleIndex(notes[..i])
    {
      assert TitleKeys(notes[..i + 1]) == TitleKeys(notes[..i]) + [TitleKey(notes[i])];
      assert NoteIds(notes[..i + 1]) == NoteIds(notes[..i]) + [IdOf(notes[i])];
      FirstWinsSnoc(TitleKeys(notes[..i]), NoteIds(notes[..i]), TitleKey(notes[i]), IdOf(notes[i]));
      var n := notes[i];
      if n.Some? && n.value.title != [] {
        var norm := Lower(CollapseSpace(Trim(n.value.title)));
        if norm !in idx {
          idx := idx[norm := n.value.id];
        }
      }
    }
    assert notes[..|notes|] == notes;
  }

  /** `resolveLink`: the id of the first note whose normalised title is the normalised text,
      or nothing when the text is empty, no title matches, or the matching id is empty. */
  function ResolveLink(rawText: string, notes: seq<Option<Note>>): (r: Option<string>)
    ensures r.Some? <==> (rawText != [] &&
      FirstTitled(notes, NormalizeTitle(rawText)) < |notes| &&
      IdOf(notes[FirstTitled(notes, NormalizeTitle(rawText))]) != [])
    ensures r.Some? ==> r.value == IdOf(notes[FirstTitled(notes, NormalizeTitle(rawText))])
  {
    TitleIndexFirstWins(notes);
    if rawText == [] then None
    else
      var idx := TitleIndex(notes);
      var norm := NormalizeTitle(rawText);
      if norm in idx && idx[norm] != [] then Some(idx[norm]) else None
  }

  /** A link text made only of whitespace is not empty, so it is looked up, under the key
      `""`; a note titled only with whitespace has that key, so the two meet when no earlier
      note holds the key. */
  lemma BlankTextResolvesBlankTitle(text: string, notes: seq<Option<Note>>, i: nat)
    requires text != [] && Blank(text)
    requires i < |notes| && notes[i].Some?
    requires notes[i].value.title != [] && Blank(notes[i].value.title) && notes[i].value.id != []
    requires forall j :: 0 <= j < i ==> TitleKey(notes[j]) != Some([])
    ensures ResolveLink(text, notes) == Some(notes[i].value.id)
  {
    var empty: string := [];
    BlankTrimsToEmpty(text);
    BlankTrimsToEmpty(notes[i].value.title);
    var keys := TitleKeys(notes);
    assert keys[i] == Some(empty);
    FirstKeySpec(keys, empty);
    assert FirstTitled(notes, empty) == i;
  }

  lemma BlankTrimsToEmpty(s: string)
    requires s != [] && Blank(s)
    ensures NormalizeTitle(s) == []
  {
    TrimSpec(s);
  }

  /** A title longer than 120 characters once normalised can never be reached by a link:
      every link token is cut to 120 characters. */
  lemma LongTitleUnreachable(title: string, content: string)
    requires |CollapseSpace(Trim(title))| > MaxTokenLength
    ensures NormalizeTitle(title) !in WikiLinkTokens(content)
  {
    WikiLinkTokensShape(content);
  }

  /** For a title of at most 120 characters, a link that spells it (in any case, with any
      spacing) yields exactly the title's key. */
  lemma ShortTitleToken(c: string)
    requires !Blank(c) && |CollapseSpace(Trim(c))| <= MaxTokenLength
    ensures NormalizeToken(c) == NormalizeTitle(c)
  {
  }

  // ---------------------------------------------------------------------------------------
  // The link graph.

  /** What `buildLinkGraph` stores under a note id. */
  datatype Entry = Entry(mentions: seq<string>, backlinks: seq<string>)

  /** The object `buildLinkGraph` returns: its own keys in the order they were created, and
      the entry under each key. */
  datatype Graph = Graph(keys: seq<string>, entries: map<string, Entry>)

  /** The notes as `buildTitleIndex` sees them: every one is present. */
  function Present(notes: seq<Note>): (r: seq<Option<Note>>)
    ensures |r| == |notes|
    ensures forall i :: 0 <= i < |notes| ==> r[i] == Some(notes[i])
  {
    seq(|notes|, i requires 0 <= i < |notes| => Some(notes[i]))
  }

  function Ids(notes: seq<Note>): (r: seq<string>)
    ensures |r| == |notes|
    ensures forall i :: 0 <= i < |notes| ==> r[i] == notes[i].id
  {
    seq(|notes|, i requires 0 <= i < |notes| => notes[i].id)
  }

  /** The ids that a note's tokens resolve to, in token order. A token with no entry or with
      an empty id, or one that resolves to the note itself, adds nothing. */
  function ResolveTokens(tokens: seq<string>, idx: map<string, string>, self: string): seq<string> {
    if tokens == [] then []
    else
      var t := tokens[|tokens| - 1];
      ResolveTokens(tokens[..|tokens| - 1], idx, self) +
        (if t in idx && idx[t] != [] && idx[t] != self then [idx[t]] else [])
  }

  lemma ResolveTokensSnoc(tokens: seq<string>, t: string, idx: map<string, string>, self: string)
    ensures ResolveTokens(tokens + [t], idx, self) == ResolveTokens(tokens, idx, self) +
      (if t in idx && idx[t] != [] && idx[t] != self then [idx[t]] else [])
  {
    assert (tokens + [t])[..|tokens|] == tokens;
  }

  /** A note mentions exactly the non-empty ids, other than its own, that its tokens map to. */
  lemma {:induction false} ResolveTokensSpec(tokens: seq<string>, idx: map<string, string>, self: string)
    ensures forall m :: m in ResolveTokens(tokens, idx, self) <==>
      m != [] && m != self && exists t :: t in tokens && t in idx && idx[t] == m
  {
    if tokens != [] {
      var init, t := tokens[..|tokens| - 1], tokens[|tokens| - 1];
      ResolveTokensSpec(init, idx, self);
      assert tokens == init + [t];
      forall m ensures m in ResolveTokens(tokens, idx, self) <==>
        m != [] && m != self && exists u :: u in tokens && u in idx && idx[u] == m
      {
        if m != [] && m != self && exists u :: u in tokens && u in idx && idx[u] == m {
          var u :| u in tokens && u in idx && idx[u] == m;
          assert u in init || u == t;
        }
      }
    }
  }

  /** The ids a note mentions. */
  function MentionsOf(n: Note, idx: map<string, string>): seq<string> {
    ResolveTokens(WikiLinkTokens(n.content), idx, n.id)
  }

  /** The mentions filed under each id by the first loop; a later note with the same id
      replaces the entry of the earlier one. */
  function MentionMap(notes: seq<Note>, idx: map<string, string>): map<string, seq<string>> {
    if notes == [] then map[]
    else
      var n := notes[|notes| - 1];
      MentionMap(notes[..|notes| - 1], idx)[n.id := MentionsOf(n, idx)]
  }

  lemma MentionMapSnoc(notes: seq<Note>, n: Note, idx: map<string, string>)
    ensures MentionMap(notes + [n], idx) == MentionMap(notes, idx)[n.id := MentionsOf(n, idx)]
  {
    assert (notes + [n])[..|notes|] == notes;
  }

  /** There is an entry for every note id and for nothing else. */
  lemma {:induction false} MentionMapKeys(notes: seq<Note>, idx: map<string, string>)
    ensures forall k :: k in MentionMap(notes, idx) <==> k in Ids(notes)
  {
    if notes != [] {
      var init := notes[..|notes| - 1];
      MentionMapKeys(init, idx);
      assert Ids(notes) == Ids(init) + [notes[|notes| - 1].id];
    }
  }

  /** The entry under an id holds the mentions of the last note with that id. */
  lemma {:induction false} MentionMapLast(notes: seq<Note>, idx: map<string, string>, i: nat)
    requires i < |notes|
    requires forall j :: i < j < |notes| ==> notes[j].id != notes[i].id
    ensures notes[i].id in MentionMap(notes, idx)
    ensures MentionMap(notes, idx)[notes[i].id] == MentionsOf(notes[i], idx)
  {
    var init := notes[..|notes| - 1];
    if i < |init| {
      MentionMapLast(init, idx, i);
      assert init[i] == notes[i];
    }
  }

  /** The backlinks the second loop pushes onto the entry of `target` while it walks the
      entries in `order`: the walked id once for every time it mentions `target`. */
  function BacklinksIn(order: seq<string>, ment: map<string, seq<string>>, target: string): seq<string>
    requires forall k :: k in order ==> k in ment
  {
    if order == [] then []
    else
      var k := order[|order| - 1];
      BacklinksIn(order[..|order| - 1], ment, target) + Repeat(k, Count(ment[k], target))
  }

  /** Backlinks are mentions read backwards: `k` appears among the backlinks of `t` as often
      as `t` appears among the mentions of `k`, when `k` is walked once. */
  lemma {:induction false} BacklinksCount(order: seq<string>, ment: map<string, seq<string>>,
                                          target: string, k: string)
    requires forall x :: x in order ==> x in ment
    requires Distinct(order)
    ensures Count(BacklinksIn(order, ment, target), k) ==
      if k in order then Count(ment[k], target) else 0
  {
    if order != [] {
      var init, last := order[..|order| - 1], order[|order| - 1];
      assert order == init + [last];
      assert Distinct(init) by {
        forall i, j | 0 <= i < j < |init| ensures init[i] != init[j] {
          assert init[i] == order[i] && init[j] == order[j];
        }
      }
      assert last !in init by {
        forall i | 0 <= i < |init| ensures init[i] != last {
          assert init[i] == order[i];
        }
      }
      var c := Count(ment[last], target);
      var before := BacklinksIn(init, ment, target);
      assert BacklinksIn(order, ment, target) == before + Repeat(last, c);
      BacklinksCount(init, ment, target, k);
      CountAppend(before, Repeat(last, c), k);
      CountRepeat(last, c, k);
    }
  }

  /** The order in which the second loop walks the entries. */
  function EntryOrder(notes: seq<Note>): seq<string> {
    EnumerationOrder(Dedup(Ids(notes)))
  }

  /** The graph whose keys were created in the order `keys`, with the mentions `ment` and the
      backlinks the second pass derives from them while it walks the entries in `order`. */
  function GraphFrom(keys: seq<string>, order: seq<string>, ment: map<string, seq<string>>): Graph
    requires forall k :: k in order ==> k in ment
  {
    Graph(keys, map k | k in ment :: Entry(ment[k], BacklinksIn(order, ment, k)))
  }

  /** The graph built from `notes` when tokens are looked up in `idx`. */
  function GraphOf(notes: seq<Note>, idx: map<string, string>): Graph {
    MentionMapKeys(notes, idx);
    DedupSpec(Ids(notes));
    GraphFrom(Dedup(Ids(notes)), EntryOrder(notes), MentionMap(notes, idx))
  }

  /** The graph `buildLinkGraph` returns for `notes`. */
  function LinkGraph(notes: seq<Note>): Graph {
    GraphOf(notes, TitleIndex(Present(notes)))
  }

  /** Backlinks are mentions read backwards: in a graph whose keys are exactly the mentioning
      ids, each once, an id occurs among the backlinks of `t` exactly as often as `t` occurs
      among its mentions, and nothing else occurs there. */
  lemma GraphFromBacklinks(keys: seq<string>, order: seq<string>, ment: map<string, seq<string>>,
                           t: string, k: string)
    requires forall x :: x in order <==> x in ment
    requires Distinct(order)
    requires t in ment
    ensures t in GraphFrom(keys, order, ment).entries
    ensures Count(GraphFrom(keys, order, ment).entries[t].backlinks, k) ==
      if k in ment then Count(ment[k], t) else 0
    ensures k in GraphFrom(keys, order, ment).entries[t].backlinks <==> k in ment && t in ment[k]
  {
    var b := BacklinksIn(order, ment, t);
    assert GraphFrom(keys, order, ment).entries[t].backlinks == b;
    BacklinksCount(order, ment, t, k);
    CountPositive(b, k);
    if k in ment {
      CountPositive(ment[k], t);
    }
  }

  /** The nodes: there is an entry for every note id and for nothing else, and the keys were
      created once each, in the order in which the ids first occur. */
  lemma LinkGraphNodes(notes: seq<Note>)
    ensures forall k :: k in LinkGraph(notes).entries <==> k in Ids(notes)
    ensures forall k :: k in LinkGraph(notes).keys <==> k in Ids(notes)
    ensures Distinct(LinkGraph(notes).keys)
    ensures forall i, j :: 0 <= i < j < |LinkGraph(notes).keys| ==>
      LinkGraph(notes).keys[i] in Ids(notes) && LinkGraph(notes).keys[j] in Ids(notes) &&
      FirstIndex(Ids(notes), LinkGraph(notes).keys[i]) < FirstIndex(Ids(notes), LinkGraph(notes).keys[j])
  {
    LinkGraphParts(notes);
    NodesOf(LinkGraph(notes), Ids(notes));
  }

  lemma NodesOf(g: Graph, ids: seq<string>)
    requires g.keys == Dedup(ids)
    requires forall k :: k in g.entries <==> k in ids
    ensures forall k :: k in g.entries <==> k in ids
    ensures forall k :: k in g.keys <==> k in ids
    ensures Distinct(g.keys)
    ensures forall i, j :: 0 <= i < j < |g.keys| ==>
      g.keys[i] in ids && g.keys[j] in ids && FirstIndex(ids, g.keys[i]) < FirstIndex(ids, g.keys[j])
  {
    DedupSpec(ids);
    DedupFirstOccurrenceOrder(ids);
  }

  /** The keys of the link graph are the note ids in `Set` order, and its entries are filed
      under exactly the note ids. */
  lemma LinkGraphParts(notes: seq<Note>)
    ensures LinkGraph(notes).keys == Dedup(Ids(notes))
    ensures forall k :: k in LinkGraph(notes).entries <==> k in Ids(notes)
  {
    var idx := TitleIndex(Present(notes));
    MentionMapKeys(notes, idx);
    DedupSpec(Ids(notes));
    GraphFromKeys(Dedup(Ids(notes)), EntryOrder(notes), MentionMap(notes, idx));
  }

  lemma GraphFromKeys(keys: seq<string>, order: seq<string>, ment: map<string, seq<string>>)
    requires forall k :: k in order ==> k in ment
    ensures GraphFrom(keys, order, ment).keys == keys
    ensures forall k :: k in GraphFrom(keys, order, ment).entries <==> k in ment
  {
  }

  /** Every mention filed under an id came from some note with that id. */
  lemma {:induction false} MentionMapFrom(notes: seq<Note>, idx: map<string, string>, k: string)
    requires k in MentionMap(notes, idx)
    ensures exists i :: 0 <= i < |notes| && notes[i].id == k &&
                        MentionMap(notes, idx)[k] == MentionsOf(notes[i], idx)
  {
    var init, n := notes[..|notes| - 1], notes[|notes| - 1];
    if n.id != k {
      MentionMapFrom(init, idx, k);
      var i :| 0 <= i < |init| && init[i].id == k && MentionMap(init, idx)[k] == MentionsOf(init[i], idx);
      assert notes[i] == init[i];
    }
  }

  /** The mentions: the entry under the id of the last note with that id lists exactly the
      non-empty ids other than its own that the note's link tokens are indexed under. */
  lemma LinkGraphMentions(notes: seq<Note>, i: nat)
    requires i < |notes|
    requires forall j :: i < j < |notes| ==> notes[j].id != notes[i].id
    ensures notes[i].id in LinkGraph(notes).entries
    ensures LinkGraph(notes).entries[notes[i].id].mentions ==
      MentionsOf(notes[i], TitleIndex(Present(notes)))
    ensures forall m :: m in LinkGraph(notes).entries[notes[i].id].mentions <==>
      m != [] && m != notes[i].id &&
      exists t :: t in WikiLinkTokens(notes[i].content) && t in TitleIndex(Present(notes)) &&
        TitleIndex(Present(notes))[t] == m
  {
    var idx := TitleIndex(Present(notes));
    MentionMapLast(notes, idx, i);
    ResolveTokensSpec(WikiLinkTokens(notes[i].content), idx, notes[i].id);
  }

  /** Every id in the title index is the id of one of the notes. */
  lemma TitleIndexIds(notes: seq<Note>, t: string)
    requires t in TitleIndex(Present(notes))
    ensures TitleIndex(Present(notes))[t] in Ids(notes)
  {
    TitleIndexFirstWins(Present(notes));
    var f := FirstTitled(Present(notes), t);
    assert Ids(notes)[f] == notes[f].id;
  }

  /** Every mention names another note that is in the graph, so the guard on the backlink
      push never skips a mention. */
  lemma LinkGraphMentionsAreNodes(notes: seq<Note>, k: string, m: string)
    requires k in LinkGraph(notes).entries && m in LinkGraph(notes).entries[k].mentions
    ensures m != k && m != [] && m in LinkGraph(notes).entries
  {
    var idx := TitleIndex(Present(notes));
    var ment := MentionMap(notes, idx);
    MentionMapKeys(notes, idx);
    assert m in ment[k];
    MentionMapFrom(notes, idx, k);
    var i :| 0 <= i < |notes| && notes[i].id == k && ment[k] == MentionsOf(notes[i], idx);
    ResolveTokensSpec(WikiLinkTokens(notes[i].content), idx, k);
    var t :| t in WikiLinkTokens(notes[i].content) && t in idx && idx[t] == m;
    TitleIndexIds(notes, t);
  }

  /** No two keys share a value. */
  predicate Injective(idx: map<string, string>) {
    forall a, b :: a in idx && b in idx && a != b ==> idx[a] != idx[b]
  }

  /** When no two notes share an id, two title keys never lead to the same note: each key
      belongs to the first note titled with it, and a note has one title. */
  lemma TitleIndexInjective(notes: seq<Note>)
    ensures Distinct(Ids(notes)) ==> Injective(TitleIndex(Present(notes)))
  {
    var ps := Present(notes);
    assert NoteIds(ps) == Ids(notes);
    FirstWinsInjective(TitleKeys(ps), NoteIds(ps));
  }

  /** In a first-insert-wins map, two keys share a value only if two positions do. */
  lemma FirstWinsInjective(keys: seq<Option<string>>, vals: seq<string>)
    requires |keys| == |vals|
    ensures Distinct(vals) ==> Injective(FirstWins(keys, vals))
  {
    var m := FirstWins(keys, vals);
    if Distinct(vals) {
      FirstWinsSpec(keys, vals);
      forall a, b | a in m && b in m && a != b ensures m[a] != m[b] {
        FirstKeySpec(keys, a);
        FirstKeySpec(keys, b);
      }
    }
  }

  /** Distinct tokens looked up in an index that never maps two keys to one id give
      distinct mentions. */
  lemma {:induction false} ResolveTokensDistinct(tokens: seq<string>, idx: map<string, string>, self: string)
    requires Distinct(tokens) && Injective(idx)
    ensures Distinct(ResolveTokens(tokens, idx, self))
  {
    if tokens != [] {
      var init, t := tokens[..|tokens| - 1], tokens[|tokens| - 1];
      assert Distinct(init) by {
        forall i, j | 0 <= i < j < |init| ensures init[i] != init[j] {
          assert init[i] == tokens[i] && init[j] == tokens[j];
        }
      }
      ResolveTokensDistinct(init, idx, self);
      var before := ResolveTokens(init, idx, self);
      if t in idx && idx[t] != [] && idx[t] != self {
        assert t !in init by {
          forall k | 0 <= k < |init| ensures init[k] != t {
            assert init[k] == tokens[k];
          }
        }
        ResolveTokensSpec(init, idx, self);
        assert idx[t] !in before;
        var r := before + [idx[t]];
        forall i, j | 0 <= i < j < |r| ensures r[i] != r[j] {
          if j == |before| { assert r[i] in before; }
        }
      }
    }
  }

  /** Five links to the same note make one mention: when no two notes share an id, no
      entry of the graph mentions the same note twice. */
  lemma LinkGraphMentionsDistinct(notes: seq<Note>, k: string)
    requires k in Ids(notes)
    ensures k in LinkGraph(notes).entries
    ensures Distinct(Ids(notes)) ==> Distinct(LinkGraph(notes).entries[k].mentions)
  {
    var idx := TitleIndex(Present(notes));
    var ment := MentionMap(notes, idx);
    MentionMapKeys(notes, idx);
    assert LinkGraph(notes).entries[k].mentions == ment[k];
    if Distinct(Ids(notes)) {
      MentionMapFrom(notes, idx, k);
      var i :| 0 <= i < |notes| && notes[i].id == k && ment[k] == MentionsOf(notes[i], idx);
      WikiLinkTokensShape(notes[i].content);
      TitleIndexInjective(notes);
      ResolveTokensDistinct(WikiLinkTokens(notes[i].content), idx, k);
    }
  }

  /** Backlinks and mentions agree: `k` is listed among the backlinks of `t` as often as `t`
      is among the mentions of `k`, and only entries appear among backlinks. */
  lemma LinkGraphBacklinks(notes: seq<Note>, t: string, k: string)
    requires t in LinkGraph(notes).entries
    ensures Count(LinkGraph(notes).entries[t].backlinks, k) ==
      if k in LinkGraph(notes).entries then Count(LinkGraph(notes).entries[k].mentions, t) else 0
    ensures k in LinkGraph(notes).entries[t].backlinks <==>
      k in LinkGraph(notes).entries && t in LinkGraph(notes).entries[k].mentions
  {
    var idx := TitleIndex(Present(notes));
    var ment := MentionMap(notes, idx);
    MentionMapKeys(notes, idx);
    DedupSpec(Ids(notes));
    GraphFromBacklinks(Dedup(Ids(notes)), EntryOrder(notes), ment, t, k);
  }

  /** The inner loop of the first pass: the note's tokens are looked up one by one. */
  method ResolveMentions(n: Note, titleIndex: map<string, string>) returns (mentions: seq<string>)
    ensures mentions == MentionsOf(n, titleIndex)
  {
    var links := ExtractWikiLinks(n.content);
    mentions := ResolveAll(links, titleIndex, n.id);
  }

  /** The `forEach` over the extracted tokens that pushes the id each one resolves to. */
  method ResolveAll(links: seq<string>, titleIndex: map<string, string>, self: string)
    returns (mentions: seq<string>)
    ensures mentions == ResolveTokens(links, titleIndex, self)
  {
    mentions := [];
    for j := 0 to |links|
      invariant mentions == ResolveTokens(links[..j], titleIndex, self)
    {
      assert links[..j + 1] == links[..j] + [links[j]];
      ResolveTokensSnoc(links[..j], links[j], titleIndex, self);
      var token := links[j];
      if token in titleIndex {
        var targetId := titleIndex[token];
        if targetId != [] && targetId != self {
          mentions := mentions + [targetId];
        }
      }
    }
    assert links[..|links|] == links;
  }

  /** Pushing one more name: the count of `k` grows by one exactly when the name is `k`. */
  lemma PushStep(b: seq<string>, id: string, ms: seq<string>, j: nat, k: string)
    requires j < |ms|
    ensures b + Repeat(id, Count(ms[..j + 1], k)) ==
      if ms[j] == k then b + Repeat(id, Count(ms[..j], k)) + [id]
      else b + Repeat(id, Count(ms[..j], k))
  {
    assert ms[..j + 1][..j] == ms[..j];
  }

  /** The inner loop of the second pass: `id` is pushed onto the backlinks of every entry
      that `ms` names, once per occurrence; names without an entry are skipped. */
  method PushBacklinks(entries: map<string, Entry>, id: string, ms: seq<string>)
    returns (r: map<string, Entry>)
    ensures r == Pushed(entries, id, ms)
    ensures r.Keys == entries.Keys
    ensures forall k :: k in r ==> r[k].mentions == entries[k].mentions
    ensures forall k :: k in r ==> r[k].backlinks == entries[k].backlinks + Repeat(id, Count(ms, k))
  {
    r := entries;
    assert Pushed(entries, id, ms[..0]) == entries by {
      assert ms[..0] == [];
      forall k | k in entries ensures Pushed(entries, id, ms[..0])[k] == entries[k] {
        assert entries[k].backlinks + Repeat(id, 0) == entries[k].backlinks;
      }
    }
    for j := 0 to |ms|
      invariant r == Pushed(entries, id, ms[..j])
    {
      PushedStep(entries, id, ms, j);
      var targetId := ms[j];
      if targetId in r {
        r := r[targetId := r[targetId].(backlinks := r[targetId].backlinks + [id])];
      }
    }
    assert ms[..|ms|] == ms;
  }

  /** The entries after `id` was pushed once for every name in `ms` that has an entry. */
  function Pushed(entries: map<string, Entry>, id: string, ms: seq<string>): map<string, Entry> {
    map k | k in entries :: entries[k].(backlinks := entries[k].backlinks + Repeat(id, Count(ms, k)))
  }

  lemma PushedStep(entries: map<string, Entry>, id: string, ms: seq<string>, j: nat)
    requires j < |ms|
    ensures var p := Pushed(entries, id, ms[..j]);
      Pushed(entries, id, ms[..j + 1]) ==
        if ms[j] in p then p[ms[j] := p[ms[j]].(backlinks := p[ms[j]].backlinks + [id])] else p
  {
    forall k | k in entries {
      PushStep(entries[k].backlinks, id, ms, j, k);
    }
  }

  /** Entries holding the given mentions and no backlinks yet. */
  function Unlinked(ment: map<string, seq<string>>): map<string, Entry> {
    map k | k in ment :: Entry(ment[k], [])
  }

  lemma UnlinkedUpdate(ment: map<string, seq<string>>, id: string, mentions: seq<string>)
    ensures Unlinked(ment[id := mentions]) == Unlinked(ment)[id := Entry(mentions, [])]
  {
  }

  /** The state of the first pass once the notes `done` are filed: the keys in creation
      order, and under each an entry holding the mentions of the last note with that id. */
  ghost predicate Filed(keys: seq<string>, entries: map<string, Entry>, done: seq<Note>,
                  titleIndex: map<string, string>) {
    keys == Dedup(Ids(done)) &&
    (forall k :: k in entries <==> k in keys) &&
    entries == Unlinked(MentionMap(done, titleIndex))
  }

  /** One step of the first pass: the note's mentions are stored under its id, and a new
      key is recorded when the id is seen for the first time. */
  method FileNote(keys: seq<string>, entries: map<string, Entry>, n: Note,
                  titleIndex: map<string, string>, ghost before: seq<Note>)
    returns (keys': seq<string>, entries': map<string, Entry>)
    requires Filed(keys, entries, before, titleIndex)
    ensures Filed(keys', entries', before + [n], titleIndex)
  {
    var mentions := ResolveMentions(n, titleIndex);
    assert Ids(before + [n]) == Ids(before) + [n.id];
    MentionMapSnoc(before, n, titleIndex);
    UnlinkedUpdate(MentionMap(before, titleIndex), n.id, mentions);
    DedupSnoc(Ids(before), n.id);
    keys' := keys;
    if n.id !in entries {
      keys' := keys + [n.id];
    }
    entries' := entries[n.id := Entry(mentions, [])];
  }

  /** The first pass: every note's mentions are filed under its id, with no backlinks yet;
      `keys` records the order in which the object's keys were created. */
  method FileMentions(notes: seq<Note>, titleIndex: map<string, string>)
    returns (keys: seq<string>, entries: map<string, Entry>)
    ensures keys == Dedup(Ids(notes))
    ensures entries == Unlinked(MentionMap(notes, titleIndex))
  {
    keys, entries := [], map[];
    assert Filed(keys, entries, notes[..0], titleIndex);
    for i := 0 to |notes|
      invariant Filed(keys, entries, notes[..i], titleIndex)
    {
      assert notes[..i + 1] == notes[..i] + [notes[i]];
      keys, entries := FileNote(keys, entries, notes[i], titleIndex, notes[..i]);
    }
    assert notes[..|notes|] == notes;
  }

  /** The second pass: the entries are walked in `order`, and each walked id is pushed onto
      the backlinks of the entries it mentions. */
  method AddBacklinks(entries: map<string, Entry>, order: seq<string>, ghost ment: map<string, seq<string>>)
    returns (r: map<string, Entry>)
    requires forall k :: k in order ==> k in entries
    requires entries.Keys == ment.Keys
    requires forall k :: k in entries ==> entries[k].mentions == ment[k]
    ensures r.Keys == entries.Keys
    ensures forall k :: k in r ==> r[k].mentions == ment[k]
    ensures forall k :: k in r ==> r[k].backlinks == entries[k].backlinks + BacklinksIn(order, ment, k)
  {
    r := entries;
    assert Added(entries, order[..0], ment) == entries by {
      assert order[..0] == [];
      forall k | k in entries ensures Added(entries, order[..0], ment)[k] == entries[k] {
        assert entries[k].backlinks + [] == entries[k].backlinks;
      }
    }
    for i := 0 to |order|
      invariant r == Added(entries, order[..i], ment)
    {
      var id := order[i];
      AddedStep(entries, order, ment, i);
      r := PushBacklinks(r, id, r[id].mentions);
    }
    assert order[..|order|] == order;
  }

  /** The entries once every id in `order` has pushed itself onto the entries it mentions. */
  function Added(entries: map<string, Entry>, order: seq<string>, ment: map<string, seq<string>>): map<string, Entry>
    requires forall k :: k in order ==> k in ment
  {
    map k | k in entries :: entries[k].(backlinks := entries[k].backlinks + BacklinksIn(order, ment, k))
  }

  lemma AddedStep(entries: map<string, Entry>, order: seq<string>, ment: map<string, seq<string>>, i: nat)
    requires i < |order|
    requires forall k :: k in order ==> k in entries
    requires entries.Keys == ment.Keys
    requires forall k :: k in entries ==> entries[k].mentions == ment[k]
    ensures order[i] in Added(entries, order[..i], ment)
    ensures Added(entries, order[..i], ment)[order[i]].mentions == ment[order[i]]
    ensures Added(entries, order[..i + 1], ment) ==
      Pushed(Added(entries, order[..i], ment), order[i], ment[order[i]])
  {
    var id := order[i];
    assert order[..i + 1][..i] == order[..i];
    var before := Added(entries, order[..i], ment);
    forall k | k in entries
      ensures Added(entries, order[..i + 1], ment)[k] == Pushed(before, id, ment[id])[k]
    {
      var b := BacklinksIn(order[..i], ment, k);
      var more := Repeat(id, Count(ment[id], k));
      assert entries[k].backlinks + (b + more) == (entries[k].backlinks + b) + more;
    }
  }

  /** The second pass over the entries the first pass filed. */
  method Invert(keys: seq<string>, order: seq<string>, entries: map<string, Entry>,
                ghost ment: map<string, seq<string>>)
    returns (graph: Graph)
    requires forall k :: k in order ==> k in ment
    requires entries == Unlinked(ment)
    ensures graph == GraphFrom(keys, order, ment)
  {
    assert forall k :: k in entries ==> entries[k] == Entry(ment[k], []);
    var built := AddBacklinks(entries, order, ment);
    graph := Graph(keys, built);
    ghost var spec := map k | k in ment :: Entry(ment[k], BacklinksIn(order, ment, k));
    forall k | k in built ensures built[k] == spec[k] {
      assert entries[k].backlinks + BacklinksIn(order, ment, k) == BacklinksIn(order, ment, k);
    }
    assert built == spec;
  }

  /** `buildLinkGraph` once the title index is built: the two passes over the notes. */
  method BuildGraph(notes: seq<Note>, titleIndex: map<string, string>) returns (graph: Graph)
    ensures graph == GraphOf(notes, titleIndex)
  {
    var keys, entries := FileMentions(notes, titleIndex);
    var order := EnumerationOrder(keys);
    assert forall k :: k in order ==> k in MentionMap(notes, titleIndex) by {
      MentionMapKeys(notes, titleIndex);
      DedupSpec(Ids(notes));
    }
    graph := Invert(keys, order, entries, MentionMap(notes, titleIndex));
  }

  /** `buildLinkGraph`. */
  method BuildLinkGraph(notes: seq<Note>) returns (graph: Graph)
    ensures graph == LinkGraph(notes)
  {
    var titleIndex := BuildTitleIndex(Present(notes));
    graph := BuildGraph(notes, titleIndex);
  }
}
