/** Normalisation of a player's MPRIS metadata dictionary (`parseMetadata`). */
module Metadata {
  import opened Wrappers
  import opened Strings
  import opened Seqs
  import opened JsValues

  /** The normalised fields of one track. */
  datatype Track = Track(
    title: Option<string>,
    artist: Option<string>,
    album: Option<string>,
    year: Option<int>,
    url: Option<string>,
    cover: Option<string>,
    durationMs: int,
    trackId: Option<string>)

  /** A regular-expression word character: `[A-Za-z0-9_]`. */
  predicate IsWordChar(c: char) {
    ('a' <= c <= 'z') || ('A' <= c <= 'Z') || IsDigit(c) || c == '_'
  }

  /** `/\b(19\d{2}|20\d{2})\b/` matches at offset `i` of `s`. */
  predicate YearAt(s: string, i: int) {
    && 0 <= i && i + 4 <= |s|
    && ((s[i] == '1' && s[i + 1] == '9') || (s[i] == '2' && s[i + 1] == '0'))
    && IsDigit(s[i + 2]) && IsDigit(s[i + 3])
    && (i == 0 || !IsWordChar(s[i - 1]))
    && (i + 4 == |s| || !IsWordChar(s[i + 4]))
  }

  /** The number the four matched digits spell. */
  function YearValue(s: string, i: int): (y: int)
    requires YearAt(s, i)
    ensures 1900 <= y <= 2099
  {
    var century := if s[i] == '1' then 1900 else 2000;
    century + DigitValue(s[i + 2]) * 10 + DigitValue(s[i + 3])
  }

  /** The offset of the leftmost match at or after `from`, or -1. */
  function FirstYearIndex(s: string, from: nat): (i: int)
    requires from <= |s|
    ensures i == -1 || (from <= i && YearAt(s, i))
    ensures forall j :: from <= j && (i == -1 || j < i) ==> !YearAt(s, j)
    decreases |s| - from
  {
    if from + 4 > |s| then -1
    else if YearAt(s, from) then from
    else FirstYearIndex(s, from + 1)
  }

  /** The year of the leftmost whole-word 19xx or 20xx in `s`, if any. */
  function YearIn(s: string): (r: Option<int>)
    ensures r.Some? <==> exists i :: YearAt(s, i)
    ensures r.Some? ==> exists i :: && YearAt(s, i) && r.value == YearValue(s, i)
                                   && forall j :: 0 <= j < i ==> !YearAt(s, j)
  {
    var i := FirstYearIndex(s, 0);
    if i == -1 then None
    else Some(YearValue(s, i))
  }

  /** `yearFromAny(x)`: the year found in the cleaned text of the unwrapped
      value; a blank or missing value has none. */
  function YearFromAny(x: JsValue): (r: Option<int>)
    ensures r.Some? ==> 1900 <= r.value <= 2099
    ensures CleanStr(VariantVal(x)).None? ==> r.None?
    ensures CleanStr(VariantVal(x)).Some? ==> r == YearIn(CleanStr(VariantVal(x)).value)
  {
    var v := CleanStr(VariantVal(x));
    if v.None? then None else YearIn(v.value)
  }

  /** Each entry of a list, cleaned. */
  function Cleaned(items: seq<JsValue>): (r: seq<Option<string>>)
    ensures |r| == |items|
    ensures forall k :: 0 <= k < |items| ==> r[k] == CleanStr(items[k])
  {
    seq(|items|, k requires 0 <= k < |items| => CleanStr(items[k]))
  }

  /** The cleaned, non-empty entries of an artist list, in order. */
  function CleanAll(items: seq<JsValue>): (r: seq<string>)
    ensures forall s :: s in r ==> s != []
    ensures |r| == 0 <==> forall k :: 0 <= k < |items| ==> CleanStr(items[k]).None?
  {
    var xs := Cleaned(items);
    var r := Somes(xs);
    assert forall s :: s in r ==> s != [] by {
      forall s | s in r ensures s != [] {
        var k :| 0 <= k < |xs| && xs[k] == Some(s);
      }
    }
    r
  }

  /** Cleaning a concatenation of lists cleans each part and keeps them in
      order: together with `CleanAllSingle` this pins down every entry of
      `CleanAll` and its position. */
  lemma CleanAllAppend(a: seq<JsValue>, b: seq<JsValue>)
    ensures CleanAll(a + b) == CleanAll(a) + CleanAll(b)
  {
    var xa, xb, xab := Cleaned(a), Cleaned(b), Cleaned(a + b);
    assert xab == xa + xb by {
      forall k | 0 <= k < |xab| ensures xab[k] == (xa + xb)[k] {
        if k < |a| { assert (a + b)[k] == a[k]; } else { assert (a + b)[k] == b[k - |a|]; }
      }
    }
    SomesAppend(xa, xb);
  }

  /** A one-entry list keeps its entry, cleaned, unless it is blank. */
  lemma CleanAllSingle(v: JsValue)
    ensures CleanAll([v]) == if CleanStr(v).Some? then [CleanStr(v).value] else []
  {
    assert Cleaned([v]) == [CleanStr(v)];
    SomesSingle(CleanStr(v));
  }

  /** The artist field: a list is cleaned and joined with ", ", anything else
      is cleaned as a single value. */
  function ArtistOf(artists: JsValue): (r: Option<string>)
    ensures artists.Arr? ==> (r.None? <==> forall k :: 0 <= k < |artists.items| ==> CleanStr(artists.items[k]).None?)
    ensures artists.Arr? && r.Some? ==> r.value == Join(CleanAll(artists.items), ", ")
    ensures !artists.Arr? ==> r == CleanStr(artists)
  {
    if artists.Arr? then
      var a := CleanAll(artists.items);
      if |a| > 0 then Some(Join(a, ", ")) else None
    else CleanStr(artists)
  }

  /** Microseconds to whole milliseconds; non-positive or non-numeric is 0. */
  function LengthMs(lengthUs: Option<int>): (ms: int)
    ensures ms >= 0
    ensures lengthUs.Some? && lengthUs.value > 0 ==> ms * 1000 <= lengthUs.value < (ms + 1) * 1000
    ensures !(lengthUs.Some? && lengthUs.value > 0) ==> ms == 0
  {
    if lengthUs.Some? && lengthUs.value > 0 then lengthUs.value / 1000 else 0
  }

  function Entry(md: map<string, JsValue>, key: string): JsValue {
    VariantVal(Field(md, key))
  }

  /** `parseMetadata(md)`. */
  function ParseMetadata(md: map<string, JsValue>): (t: Track)
    ensures t.title == CleanStr(Entry(md, "xesam:title")) && t.album == CleanStr(Entry(md, "xesam:album"))
    ensures t.artist == ArtistOf(Entry(md, "xesam:artist"))
    ensures t.url == CleanStr(Entry(md, "xesam:url")).OrElse(CleanStr(Entry(md, "xesam:comment")))
    ensures t.cover == CleanStr(Entry(md, "mpris:artUrl"))
    ensures t.year.Some? ==> 1900 <= t.year.value <= 2099
    ensures t.durationMs == LengthMs(AsNumber(Entry(md, "mpris:length")))
    ensures t.trackId.Some? <==> Truthy(Entry(md, "mpris:trackid"))
    ensures t.trackId.Some? ==> t.trackId.value == ToStr(Entry(md, "mpris:trackid"))
  {
    var year :=
      YearFromAny(Field(md, "xesam:date"))
        .OrElse(YearFromAny(Field(md, "xesam:contentCreated")))
        .OrElse(YearFromAny(Field(md, "xesam:comment")));
    var url := CleanStr(Entry(md, "xesam:url")).OrElse(CleanStr(Entry(md, "xesam:comment")));
    var trackId := Entry(md, "mpris:trackid");
    Track(
      CleanStr(Entry(md, "xesam:title")),
      ArtistOf(Entry(md, "xesam:artist")),
      CleanStr(Entry(md, "xesam:album")),
      year,
      url,
      CleanStr(Entry(md, "mpris:artUrl")),
      LengthMs(AsNumber(Entry(md, "mpris:length"))),
      if Truthy(trackId) then Some(ToStr(trackId)) else None)
  }

  /** The year comes from the date field when it holds one, else from the
      creation field, else from the comment. */
  lemma YearPriority(md: map<string, JsValue>)
    ensures var t := ParseMetadata(md);
      && (YearFromAny(Field(md, "xesam:date")).Some? ==> t.year == YearFromAny(Field(md, "xesam:date")))
      && (YearFromAny(Field(md, "xesam:date")).None? && YearFromAny(Field(md, "xesam:contentCreated")).Some?
          ==> t.year == YearFromAny(Field(md, "xesam:contentCreated")))
      && (t.year.None? <==> YearFromAny(Field(md, "xesam:date")).None?
                            && YearFromAny(Field(md, "xesam:contentCreated")).None?
                            && YearFromAny(Field(md, "xesam:comment")).None?)
      && (YearFromAny(Field(md, "xesam:date")).None? && YearFromAny(Field(md, "xesam:contentCreated")).None?
          ==> t.year == YearFromAny(Field(md, "xesam:comment")))
  {
  }

  /** The artists of a list can be read back from the joined field: splitting
      it on ", " gives the cleaned, non-blank entries in their order, as long
      as no entry itself contains ", ". */
  lemma ArtistListReadsBack(md: map<string, JsValue>)
    requires Entry(md, "xesam:artist").Arr?
    requires var items := Entry(md, "xesam:artist").items;
      forall k :: 0 <= k < |items| && CleanStr(items[k]).Some? ==> !Contains(CleanStr(items[k]).value, ", ")
    ensures var a := CleanAll(Entry(md, "xesam:artist").items);
      var t := ParseMetadata(md);
      && (t.artist.None? <==> |a| == 0)
      && (t.artist.Some? ==> Split(t.artist.value, ", ") == a)
  {
    var items := Entry(md, "xesam:artist").items;
    var a := CleanAll(items);
    if |a| > 0 {
      forall k | 0 <= k < |a| ensures !Contains(a[k], ", ") {
        CleanAllFrom(items, a[k]);
      }
      SplitJoin(a);
    }
  }

  /** Every cleaned artist is the cleaned form of some entry of the list. */
  lemma CleanAllFrom(items: seq<JsValue>, s: string)
    requires s in CleanAll(items)
    ensures exists k :: 0 <= k < |items| && CleanStr(items[k]) == Some(s)
  {
    var xs := Cleaned(items);
    assert s in Somes(xs);
    var k :| 0 <= k < |xs| && xs[k] == Some(s);
  }

  /** Every text field of a parsed track is clean: absent, or non-empty and
      trimmed. A joined artist list is too, its entries being cleaned. */
  lemma ParsedTextIsClean(md: map<string, JsValue>)
    ensures var t := ParseMetadata(md);
      && IsCleanText(t.title) && IsCleanText(t.artist) && IsCleanText(t.album)
      && IsCleanText(t.url) && IsCleanText(t.cover)
  {
    ArtistOfIsClean(Entry(md, "xesam:artist"));
  }

  lemma ArtistOfIsClean(artists: JsValue)
    ensures IsCleanText(ArtistOf(artists))
  {
    if artists.Arr? {
      var a := CleanAll(artists.items);
      if |a| > 0 {
        forall k | 0 <= k < |a|
          ensures a[k] != [] && !IsSpace(a[k][0]) && !IsSpace(a[k][|a[k]| - 1])
        {
          CleanAllFrom(artists.items, a[k]);
        }
        JoinUnpadded(a, ", ");
        TrimUnpadded(Join(a, ", "));
      }
    }
  }

  /** The URL falls back to the comment, and is null only when both are empty. */
  lemma UrlFallsBackToComment(md: map<string, JsValue>)
    ensures var t := ParseMetadata(md);
      && (CleanStr(Entry(md, "xesam:url")).Some? ==> t.url == CleanStr(Entry(md, "xesam:url")))
      && (t.url.None? <==> CleanStr(Entry(md, "xesam:url")).None? && CleanStr(Entry(md, "xesam:comment")).None?)
  {
  }

  /** A length of `us` microseconds gives the whole milliseconds it contains. */
  lemma DurationFromLength(md: map<string, JsValue>, us: int)
    requires Entry(md, "mpris:length") == Num(us) && us > 0
    ensures ParseMetadata(md).durationMs * 1000 <= us < (ParseMetadata(md).durationMs + 1) * 1000
  {
  }
}
