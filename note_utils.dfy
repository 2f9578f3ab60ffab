/** The note helpers: searching notes, collecting and parsing tags, and the relative-time
    buckets used when a date is shown. */
module NoteUtils {

  import opened Notes
  import opened JsString
  import opened JsCollections

  // ---------------------------------------------------------------------------------------
  // Searching.

  /** `note` is present and its lower-cased title, content or one of its string tags
      contains `term`. */
  predicate MatchesTerm(note: Option<Note>, term: string) {
    note.Some? &&
    (Includes(Lower(note.value.title), term) ||
     Includes(Lower(note.value.content), term) ||
     exists k :: 0 <= k < |note.value.tags| && note.value.tags[k].Some? &&
       Includes(Lower(note.value.tags[k].value), term))
  }

  /** `searchNotes(notes, searchTerm)`. `None` stands for a value that is not an array, or a
      search term that is missing or not a string. */
  function SearchNotes(notes: Option<seq<Option<Note>>>, searchTerm: Option<string>): seq<Option<Note>> {
    if notes.None? then []
    else if searchTerm.None? || Blank(searchTerm.value) then notes.value
    else
      var term := Trim(Lower(searchTerm.value));
      Filter(notes.value, n => MatchesTerm(n, term))
  }

  /** What the search keeps: nothing for a non-array, everything for a blank term, and
      otherwise, in order and as often as they occur, exactly the notes that match the
      lower-cased, trimmed term; missing notes never match. */
  lemma {:induction false} SearchNotesSpec(notes: Option<seq<Option<Note>>>, searchTerm: Option<string>)
    ensures notes.None? ==> SearchNotes(notes, searchTerm) == []
    ensures notes.Some? && (searchTerm.None? || Blank(searchTerm.value)) ==>
      SearchNotes(notes, searchTerm) == notes.value
    ensures notes.Some? ==> IsSubsequence(SearchNotes(notes, searchTerm), notes.value)
    ensures notes.Some? && searchTerm.Some? && !Blank(searchTerm.value) ==>
      forall n :: Count(SearchNotes(notes, searchTerm), n) ==
        if MatchesTerm(n, Trim(Lower(searchTerm.value))) then Count(notes.value, n) else 0
    ensures notes.Some? && searchTerm.Some? && !Blank(searchTerm.value) ==>
      forall n :: n in SearchNotes(notes, searchTerm) ==> n.Some?
  {
    if notes.Some? {
      if searchTerm.None? || Blank(searchTerm.value) {
        SubsequenceOfSelf(notes.value);
      } else {
        var term := Trim(Lower(searchTerm.value));
        FilterKeeps(notes.value, n => MatchesTerm(n, term));
      }
    }
  }

  /** Lower-casing keeps exactly the whitespace positions, so a string is blank exactly when
      its lower case is. */
  lemma {:induction false} BlankLower(s: string)
    ensures Blank(Lower(s)) <==> Blank(s)
  {
    LowerKeepsShape(s);
  }

  /** The search ignores the case of the term. */
  lemma {:induction false} SearchCaseInsensitive(notes: Option<seq<Option<Note>>>, term: string)
    ensures SearchNotes(notes, Some(Lower(term))) == SearchNotes(notes, Some(term))
  {
    BlankLower(term);
    LowerIdempotent(term);
  }

  // ---------------------------------------------------------------------------------------
  // Collecting tags.

  /** A tag that `getAllTags` collects: a non-blank string, trimmed. */
  function CleanTag(t: Option<string>): Option<string> {
    if t.Some? && !Blank(t.value) then Some(Trim(t.value)) else None
  }

  /** The tags of one note that `getAllTags` collects, in order. */
  function NoteTags(n: Option<Note>): seq<string> {
    if n.Some? then FilterMap(n.value.tags, CleanTag) else []
  }

  /** The tags of all notes that `getAllTags` collects, in the order it meets them. */
  function TagStream(notes: seq<Option<Note>>): seq<string> {
    FlatMap(notes, NoteTags)
  }

  /** The tags `getAllTags` returns: each collected tag once, sorted by code units. */
  function AllTags(notes: Option<seq<Option<Note>>>): seq<string> {
    if notes.None? then []
    else
      DedupSpec(TagStream(notes.value));
      SortStrings(Dedup(TagStream(notes.value)))
  }

  /** The inner loop of `getAllTags`: the tags of one note are added to the `Set`, which
      keeps the first occurrence of each in insertion order. */
  method AddTags(tagSet: seq<string>, ghost before: seq<string>, tags: seq<Option<string>>)
    returns (r: seq<string>)
    requires tagSet == Dedup(before)
    ensures r == Dedup(before + FilterMap(tags, CleanTag))
  {
    r := tagSet;
    assert before + FilterMap(tags[..0], CleanTag) == before;
    for j := 0 to |tags|
      invariant r == Dedup(before + FilterMap(tags[..j], CleanTag))
    {
      AddTagsStep(before, tags, j);
      r := AddTag(r, before + FilterMap(tags[..j], CleanTag), tags[j]);
    }
    assert tags[..|tags|] == tags;
  }

  /** The tags seen after one more turn are those seen before, then what that tag adds. */
  lemma AddTagsStep(before: seq<string>, tags: seq<Option<string>>, j: nat)
    requires j < |tags|
    ensures before + FilterMap(tags[..j + 1], CleanTag) ==
      (before + FilterMap(tags[..j], CleanTag)) + Cleaned(tags[j])
  {
    var f := FilterMap(tags[..j], CleanTag);
    assert tags[..j + 1] == tags[..j] + [tags[j]];
    FilterMapSnoc(tags[..j], tags[j], CleanTag);
    assert before + (f + Cleaned(tags[j])) == (before + f) + Cleaned(tags[j]);
  }

  /** What one tag contributes: its trimmed text, or nothing when it is not kept. */
  function Cleaned(tag: Option<string>): seq<string> {
    if CleanTag(tag).Some? then [CleanTag(tag).value] else []
  }

  /** One turn of the inner loop: a kept tag is added to the `Set` unless already there. */
  method AddTag(r: seq<string>, ghost seen: seq<string>, tag: Option<string>) returns (r': seq<string>)
    requires r == Dedup(seen)
    ensures r' == Dedup(seen + Cleaned(tag))
  {
    r' := r;
    if tag.Some? && !Blank(tag.value) {
      var trimmed := Trim(tag.value);
      DedupSnoc(seen, trimmed);
      if trimmed !in r {
        r' := r + [trimmed];
      }
    } else {
      assert seen + [] == seen;
    }
  }

  /** `getAllTags(notes)`: the tags are added to a `Set` note by note and tag by tag, then
      listed and sorted. */
  method GetAllTags(notes: Option<seq<Option<Note>>>) returns (r: seq<string>)
    ensures r == AllTags(notes)
  {
    if notes.None? {
      return [];
    }
    var ns := notes.value;
    var tagSet: seq<string> := [];
    for i := 0 to |ns|
      invariant tagSet == Dedup(TagStream(ns[..i]))
    {
      assert ns[..i + 1] == ns[..i] + [ns[i]];
      FlatMapSnoc(ns[..i], ns[i], NoteTags);
      assert TagStream(ns[..i + 1]) == TagStream(ns[..i]) + NoteTags(ns[i]);
      if ns[i].Some? {
        assert NoteTags(ns[i]) == FilterMap(ns[i].value.tags, CleanTag);
        tagSet := AddTags(tagSet, TagStream(ns[..i]), ns[i].value.tags);
        assert tagSet == Dedup(TagStream(ns[..i + 1]));
      } else {
        assert NoteTags(ns[i]) == [];
        assert TagStream(ns[..i]) + [] == TagStream(ns[..i]);
      }
    }
    assert ns[..|ns|] == ns;
    DedupSpec(TagStream(ns));
    r := SortStrings(tagSet);
  }

  /** `getAllTags` lists, strictly sorted and so without duplicates, exactly the trims of all
      non-blank string tags of all present notes; a non-array gives nothing. */
  lemma {:induction false} AllTagsSpec(notes: Option<seq<Option<Note>>>)
    ensures StrictlySorted(AllTags(notes)) && Distinct(AllTags(notes))
    ensures notes.None? ==> AllTags(notes) == []
    ensures notes.Some? ==> forall x :: x in AllTags(notes) <==>
      exists i, k :: 0 <= i < |notes.value| && notes.value[i].Some? &&
        0 <= k < |notes.value[i].value.tags| && CleanTag(notes.value[i].value.tags[k]) == Some(x)
  {
    StrictlySortedDistinct(AllTags(notes));
    if notes.Some? {
      var ns := notes.value;
      DedupSpec(TagStream(ns));
      FlatMapSpec(ns, NoteTags);
      forall i | 0 <= i < |ns| && ns[i].Some? {
        FilterMapSpec(ns[i].value.tags, CleanTag);
      }
    }
  }

  /** Every collected tag is trimmed and not empty. */
  lemma {:induction false} CleanTagTrimmed(t: Option<string>)
    ensures CleanTag(t).Some? ==> CleanTag(t).value != [] && IsTrimmed(CleanTag(t).value)
  {
    if t.Some? {
      TrimSpec(t.value);
    }
  }

  // ---------------------------------------------------------------------------------------
  // Parsing tags.

  /** Tags longer than this are dropped. */
  const MaxTagLength := 50
  /** At most this many tags are kept. */
  const MaxTags := 10

  /** `parts.map(t => t.trim())`. */
  function TrimAll(parts: seq<string>): seq<string> {
    ArrayMap(parts, Trim)
  }

  /** A tag the input box accepts: between 1 and 50 characters. */
  predicate TagLengthOk(t: string) {
    0 < |t| <= MaxTagLength
  }

  /** `parseTags(tagString)`; `None` stands for a value that is not a string. */
  function ParseTags(tagString: Option<string>): seq<string> {
    if tagString.None? || tagString.value == [] then []
    else Take(Filter(TrimAll(Split(tagString.value, ',')), TagLengthOk), MaxTags)
  }

  /** A tag as `parseTags` returns it: trimmed, 1 to 50 characters, no comma. */
  predicate ParsedTag(t: string) {
    TagLengthOk(t) && IsTrimmed(t) && ',' !in t
  }

  /** Trimming comma-free pieces gives trimmed, comma-free pieces. */
  lemma {:induction false} TrimmedPieces(parts: seq<string>)
    requires forall k :: 0 <= k < |parts| ==> ',' !in parts[k]
    ensures forall x :: x in TrimAll(parts) ==> IsTrimmed(x) && ',' !in x
  {
    ArrayMapSpec(parts, Trim);
    forall x | x in TrimAll(parts) ensures IsTrimmed(x) && ',' !in x {
      var p :| 0 <= p < |parts| && TrimAll(parts)[p] == x;
      TrimSpec(parts[p]);
    }
  }

  /** What `parseTags` returns: nothing for a missing, empty or non-string input; otherwise
      at most ten tags, each trimmed, of 1 to 50 characters and without commas, which are the
      first of the acceptable trimmed comma-separated pieces, duplicates kept. */
  lemma {:induction false} ParseTagsSpec(tagString: Option<string>)
    ensures tagString.None? || tagString.value == [] ==> ParseTags(tagString) == []
    ensures |ParseTags(tagString)| <= MaxTags
    ensures forall x :: x in ParseTags(tagString) ==> ParsedTag(x)
    ensures tagString.Some? && tagString.value != [] ==>
      var kept := Filter(TrimAll(Split(tagString.value, ',')), TagLengthOk);
      ParseTags(tagString) <= kept &&
      |ParseTags(tagString)| == if |kept| <= MaxTags then |kept| else MaxTags
  {
    if tagString.Some? && tagString.value != [] {
      var trimmed := TrimAll(Split(tagString.value, ','));
      var kept := Filter(trimmed, TagLengthOk);
      TrimmedPieces(Split(tagString.value, ','));
      FilterKeeps(trimmed, TagLengthOk);
      var r := ParseTags(tagString);
      assert r == Take(kept, MaxTags);
      forall x | x in r ensures ParsedTag(x) {
        assert x in kept;
      }
    }
  }

  /** Tags that are each acceptable, at most ten of them, come back unchanged from the
      comma-joined text. */
  lemma {:induction false} ParseTagsRoundTrip(tags: seq<string>)
    requires 1 <= |tags| <= MaxTags
    requires forall k :: 0 <= k < |tags| ==> ParsedTag(tags[k])
    ensures ParseTags(Some(Join(tags, ','))) == tags
  {
    var s := Join(tags, ',');
    assert Split(s, ',') == tags by {
      SplitJoin(tags, ',');
    }
    assert s != [] by {
      JoinLength(tags, ',');
    }
    assert TrimAll(tags) == tags by {
      TrimAllTrimmed(tags);
    }
    assert Filter(tags, TagLengthOk) == tags by {
      FilterAll(tags, TagLengthOk);
    }
    assert ParseTags(Some(s)) == Take(Filter(TrimAll(tags), TagLengthOk), MaxTags);
  }

  lemma {:induction false} TrimAllTrimmed(parts: seq<string>)
    requires forall k :: 0 <= k < |parts| ==> IsTrimmed(parts[k])
    ensures TrimAll(parts) == parts
  {
    ArrayMapSpec(parts, Trim);
    forall k | 0 <= k < |parts| ensures TrimAll(parts)[k] == parts[k] {
      TrimOfTrimmed(parts[k]);
    }
  }

  // ---------------------------------------------------------------------------------------
  // Relative time.

  const MsPerMinute := 1000 * 60
  const MsPerHour := 1000 * 60 * 60
  const MsPerDay := 1000 * 60 * 60 * 24

  /** How `formatDate` shows a valid date `diffMs` milliseconds in the past. `Calendar` is
      the locale-formatted date, with the year shown or not. */
  datatype RelativeTime =
    | JustNow
    | MinutesAgo(minutes: nat)
    | HoursAgo(hours: nat)
    | DaysAgo(days: nat)
    | Calendar(showYear: bool)

  /** The buckets of `formatDate`. `Math.floor(diffMs / d)` for an integer `diffMs` and a
      positive `d` is Euclidean division. */
  function Relative(diffMs: int): RelativeTime {
    var diffMinutes := diffMs / MsPerMinute;
    var diffHours := diffMs / MsPerHour;
    var diffDays := diffMs / MsPerDay;
    if diffMinutes < 1 then JustNow
    else if diffMinutes < 60 then MinutesAgo(diffMinutes)
    else if diffHours < 24 then HoursAgo(diffHours)
    else if diffDays < 7 then DaysAgo(diffDays)
    else Calendar(diffDays > 365)
  }

  /** Each bucket holds exactly one range of differences, and the number shown is the count
      of whole units elapsed. A date in the future is "just now". */
  lemma {:induction false} RelativeSpec(diffMs: int)
    ensures Relative(diffMs) == JustNow <==> diffMs < MsPerMinute
    ensures Relative(diffMs).MinutesAgo? <==> MsPerMinute <= diffMs < MsPerHour
    ensures Relative(diffMs).HoursAgo? <==> MsPerHour <= diffMs < MsPerDay
    ensures Relative(diffMs).DaysAgo? <==> MsPerDay <= diffMs < 7 * MsPerDay
    ensures Relative(diffMs).Calendar? <==> 7 * MsPerDay <= diffMs
    ensures Relative(diffMs).MinutesAgo? ==> var m := Relative(diffMs).minutes;
      1 <= m < 60 && m * MsPerMinute <= diffMs < (m + 1) * MsPerMinute
    ensures Relative(diffMs).HoursAgo? ==> var h := Relative(diffMs).hours;
      1 <= h < 24 && h * MsPerHour <= diffMs < (h + 1) * MsPerHour
    ensures Relative(diffMs).DaysAgo? ==> var d := Relative(diffMs).days;
      1 <= d < 7 && d * MsPerDay <= diffMs < (d + 1) * MsPerDay
    ensures Relative(diffMs).Calendar? ==>
      (Relative(diffMs).showYear <==> 366 * MsPerDay <= diffMs)
  {
  }

  /** The rank of a bucket: later buckets are for older dates. */
  function Rank(r: RelativeTime): nat {
    match r
    case JustNow => 0
    case MinutesAgo(_) => 1
    case HoursAgo(_) => 2
    case DaysAgo(_) => 3
    case Calendar(y) => if y then 5 else 4
  }

  /** An older date never lands in an earlier bucket, nor shows a smaller count in the same
      bucket. */
  lemma {:induction false} RelativeMonotone(a: int, b: int)
    requires a <= b
    ensures Rank(Relative(a)) <= Rank(Relative(b))
    ensures Relative(a).MinutesAgo? && Relative(b).MinutesAgo? ==>
      Relative(a).minutes <= Relative(b).minutes
    ensures Relative(a).HoursAgo? && Relative(b).HoursAgo? ==> Relative(a).hours <= Relative(b).hours
    ensures Relative(a).DaysAgo? && Relative(b).DaysAgo? ==> Relative(a).days <= Relative(b).days
  {
    DivMonotone(a, b, MsPerMinute);
    DivMonotone(a, b, MsPerHour);
    DivMonotone(a, b, MsPerDay);
  }

  lemma MulNonNegative(x: int, y: int)
    requires 0 <= x && 0 <= y
    ensures 0 <= x * y
  {
  }

  lemma DivMonotone(a: int, b: int, d: int)
    requires a <= b && 0 < d
    ensures a / d <= b / d
  {
    var qa, qb := a / d, b / d;
    assert a == d * qa + a % d && b == d * qb + b % d;
    if qb < qa {
      var gap := qa - qb - 1;
      assert 0 <= d * gap by { MulNonNegative(d, gap); }
      assert false;
    }
  }

  /** The decimal digits of `n`, as `String(n)` writes a non-negative integer. */
  function DecimalString(n: nat): (s: string)
    ensures s != [] && AllDigits(s)
  {
    if n < 10 then [('0' as int + n) as char]
    else DecimalString(n / 10) + [('0' as int + n % 10) as char]
  }

  /** Writing a number in decimal and reading it back gives the number. */
  lemma {:induction false} DecimalRoundTrip(n: nat)
    ensures DecimalValue(DecimalString(n)) == n
  {
    if n >= 10 {
      DecimalRoundTrip(n / 10);
      var s := DecimalString(n);
      assert s[..|s| - 1] == DecimalString(n / 10);
    }
  }

  /** The text `formatDate` shows for a relative bucket; the calendar form comes from the
      locale formatter and is not modelled. */
  function Label(r: RelativeTime): Option<string> {
    match r
    case JustNow => Some("Just now")
    case MinutesAgo(m) => Some(DecimalString(m) + "m ago")
    case HoursAgo(h) => Some(DecimalString(h) + "h ago")
    case DaysAgo(d) => Some(DecimalString(d) + "d ago")
    case Calendar(_) => None
  }

  /** The count of a bucket that shows one. */
  function Amount(r: RelativeTime): nat {
    match r
    case MinutesAgo(m) => m
    case HoursAgo(h) => h
    case DaysAgo(d) => d
    case _ => 0
  }

  /** The unit letter of a bucket that shows a count. */
  function UnitLetter(r: RelativeTime): char {
    match r
    case MinutesAgo(_) => 'm'
    case HoursAgo(_) => 'h'
    case _ => 'd'
  }

  /** A label with a count reads back: it is the count in decimal, the unit letter and
      " ago"; only the calendar bucket has no label of its own. */
  lemma {:induction false} LabelReadsBack(r: RelativeTime)
    ensures Label(r).None? <==> r.Calendar?
    ensures r.JustNow? ==> Label(r) == Some("Just now")
    ensures r.MinutesAgo? || r.HoursAgo? || r.DaysAgo? ==>
      var s := Label(r).value;
      |s| > 5 && s[|s| - 5..] == [UnitLetter(r)] + " ago" && AllDigits(s[..|s| - 5]) &&
      DecimalValue(s[..|s| - 5]) == Amount(r)
  {
    if r.MinutesAgo? || r.HoursAgo? || r.DaysAgo? {
      var n := Amount(r);
      DecimalRoundTrip(n);
      assert Label(r).value == DecimalString(n) + ([UnitLetter(r)] + " ago");
      Suffixed(DecimalString(n), [UnitLetter(r)] + " ago");
    }
  }

  lemma Suffixed(d: string, tail: string)
    requires |tail| == 5
    ensures var s := d + tail; |s| == |d| + 5 && s[..|s| - 5] == d && s[|s| - 5..] == tail
  {
    var s := d + tail;
    assert s[..|d|] == d;
  }
}
