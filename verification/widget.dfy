/** The dashboard widget's pure helpers: reading the configured write key,
    formatting a duration, escaping text for HTML, and the year guard. */
module Widget {
  import opened Wrappers
  import opened Strings
  import opened JsValues
  import opened Metadata
  import opened SourceStates
  import opened Bridge

  // ---------------------------------------------------------------------------
  // The write key
  // ---------------------------------------------------------------------------

  /** The characters a regular-expression `.` does not match. */
  predicate IsLineTerminator(c: char) {
    c == '\n' || c == '\r' || c == '\U{2028}' || c == '\U{2029}'
  }

  /** `/^\{\{.*\}\}$/.test(v)`: an unsubstituted `{{...}}` placeholder on a
      single line. */
  predicate IsTemplate(v: string) {
    && |v| >= 4
    && v[0] == '{' && v[1] == '{' && v[|v| - 2] == '}' && v[|v| - 1] == '}'
    && forall i :: 2 <= i < |v| - 2 ==> !IsLineTerminator(v[i])
  }

  const VarMarker: string := "HOMEPAGE_VAR_"

  /** `getEnvKey()` for the configured text `raw`: the trimmed text, unless it
      is empty, an unsubstituted placeholder, or still names a variable. */
  function GetEnvKey(raw: string): (r: string)
    ensures r == [] || r == Trim(raw)
    ensures r != [] <==> Trim(raw) != [] && !IsTemplate(Trim(raw)) && !Contains(Trim(raw), VarMarker)
  {
    var v := Trim(raw);
    if v == [] then []
    else if IsTemplate(v) then []
    else if Contains(v, VarMarker) then []
    else v
  }

  /** A key that passed the filter passes it again unchanged. */
  lemma GetEnvKeyIdempotent(raw: string)
    ensures GetEnvKey(GetEnvKey(raw)) == GetEnvKey(raw)
  {
    var r := GetEnvKey(raw);
    if r != [] {
      TrimIdempotent(raw);
    } else {
      assert Trim(r) == [];
    }
  }

  /** Any text that names a homepage variable is refused, wherever the name
      sits. */
  lemma VariableNameRefused(raw: string, i: nat)
    requires i + |VarMarker| <= |Trim(raw)| && Trim(raw)[i..i + |VarMarker|] == VarMarker
    ensures GetEnvKey(raw) == []
  {
    ContainsAt(Trim(raw), VarMarker, i);
  }

  // ---------------------------------------------------------------------------
  // Durations
  // ---------------------------------------------------------------------------

  const TwoTo31: int := 0x8000_0000
  const TwoTo32: int := 0x1_0000_0000

  /** `x | 0` for an integer `x`: the signed 32-bit value with the same low
      32 bits. */
  function ToInt32(x: int): (r: int)
    ensures -TwoTo31 <= r < TwoTo31
    ensures (r - x) % TwoTo32 == 0
    ensures -TwoTo31 <= x < TwoTo31 ==> r == x
  {
    (x + TwoTo31) % TwoTo32 - TwoTo31
  }

  /** `String(n).padStart(2, "0")` for a number below 100. */
  function Pad2(n: nat): (r: string)
    requires n < 100
    ensures |r| == 2 && IsDigit(r[0]) && IsDigit(r[1])
    ensures DigitValue(r[0]) * 10 + DigitValue(r[1]) == n
  {
    [DigitChar(n / 10), DigitChar(n % 10)]
  }

  /** `fmtMs(ms)`: whole minutes, a colon, and the seconds within the minute
      as two digits. Negative values (including those the 32-bit conversion
      makes negative) show as `0:00`. */
  function FmtMs(ms: int): (r: string)
    ensures |r| >= 4 && r[|r| - 3] == ':'
    ensures forall i :: 0 <= i < |r| && i != |r| - 3 ==> IsDigit(r[i])
  {
    var m := if ToInt32(ms) < 0 then 0 else ToInt32(ms);
    var s := m / 1000;
    NatToDecimal(s / 60) + ":" + Pad2(s % 60)
  }

  /** Reading the text back: the minutes and the two-digit seconds give the
      whole seconds of a duration inside the 32-bit range, and the seconds
      part is below 60. */
  lemma FmtMsReadsBack(ms: int)
    requires 0 <= ms < TwoTo31
    ensures var r := FmtMs(ms);
      var ss := DigitValue(r[|r| - 2]) * 10 + DigitValue(r[|r| - 1]);
      && ss < 60
      && DigitsValue(r[..|r| - 3]) * 60 + ss == ms / 1000
      && r[..|r| - 3] == NatToDecimal(ms / 1000 / 60)
  {
    var s := ms / 1000;
    var r := FmtMs(ms);
    NatToDecimalValue(s / 60);
    assert r[..|r| - 3] == NatToDecimal(s / 60);
    assert r[|r| - 2..] == Pad2(s % 60);
  }

  /** Durations from 2^31 up to 2^32 ms turn negative under `ms | 0`, and so
      show as zero. */
  lemma FmtMsWraps(ms: int)
    requires TwoTo31 <= ms < TwoTo32
    ensures ToInt32(ms) < 0
    ensures FmtMs(ms) == "0:00"
  {
    assert ToInt32(ms) == ms - TwoTo32;
    assert NatToDecimal(0) == "0";
    assert Pad2(0) == "00";
  }

  /** Negative durations show as zero. */
  lemma FmtMsNegative(ms: int)
    requires -TwoTo31 <= ms < 0
    ensures FmtMs(ms) == "0:00"
  {
    assert NatToDecimal(0) == "0";
    assert Pad2(0) == "00";
  }

  // ---------------------------------------------------------------------------
  // HTML escaping
  // ---------------------------------------------------------------------------

  /** `s.replace(/c/g, rep)` for a single character `c`. */
  function ReplaceChar(s: string, c: char, rep: string): (r: string)
    ensures c !in s ==> r == s
  {
    if |s| == 0 then []
    else (if s[0] == c then rep else [s[0]]) + ReplaceChar(s[1..], c, rep)
  }

  /** Replacing distributes over concatenation. */
  lemma {:induction false} ReplaceCharConcat(a: string, b: string, c: char, rep: string)
    ensures ReplaceChar(a + b, c, rep) == ReplaceChar(a, c, rep) + ReplaceChar(b, c, rep)
    decreases |a|
  {
    if |a| > 0 {
      assert (a + b)[1..] == a[1..] + b;
      ReplaceCharConcat(a[1..], b, c, rep);
    } else {
      assert a + b == b;
    }
  }

  /** The five replacements of `escHtml`, in the order they are applied. */
  function EscChain(t: string): string {
    ReplaceChar(ReplaceChar(ReplaceChar(ReplaceChar(ReplaceChar(t,
      '&', "&amp;"), '<', "&lt;"), '>', "&gt;"), '"', "&quot;"), '\'', "&#39;")
  }

  /** What one character becomes. */
  function EscChar(c: char): (r: string)
    ensures c != '&' && c != '<' && c != '>' && c != '"' && c != '\'' ==> r == [c]
  {
    if c == '&' then "&amp;"
    else if c == '<' then "&lt;"
    else if c == '>' then "&gt;"
    else if c == '"' then "&quot;"
    else if c == '\'' then "&#39;"
    else [c]
  }

  /** Each character escaped on its own, in order. */
  function EscapeEach(t: string): (r: string)
    ensures |r| >= |t|
  {
    if |t| == 0 then [] else EscChar(t[0]) + EscapeEach(t[1..])
  }

  lemma ReplaceOne(x: char, c: char, rep: string)
    ensures ReplaceChar([x], c, rep) == if x == c then rep else [x]
  {
    assert [x][1..] == [];
  }

  lemma EscChainOfChar(c: char)
    ensures EscChain([c]) == EscChar(c)
  {
    ReplaceOne(c, '&', "&amp;");
    if c == '&' {
      assert '<' !in "&amp;" && '>' !in "&amp;" && '"' !in "&amp;" && '\'' !in "&amp;";
    } else {
      ReplaceOne(c, '<', "&lt;");
      if c == '<' {
        assert '>' !in "&lt;" && '"' !in "&lt;" && '\'' !in "&lt;";
      } else {
        ReplaceOne(c, '>', "&gt;");
        if c == '>' {
          assert '"' !in "&gt;" && '\'' !in "&gt;";
        } else {
          ReplaceOne(c, '"', "&quot;");
          if c == '"' {
            assert '\'' !in "&quot;";
          } else {
            ReplaceOne(c, '\'', "&#39;");
          }
        }
      }
    }
  }

  lemma EscChainConcat(a: string, b: string)
    ensures EscChain(a + b) == EscChain(a) + EscChain(b)
  {
    ReplaceCharConcat(a, b, '&', "&amp;");
    var a1, b1 := ReplaceChar(a, '&', "&amp;"), ReplaceChar(b, '&', "&amp;");
    ReplaceCharConcat(a1, b1, '<', "&lt;");
    var a2, b2 := ReplaceChar(a1, '<', "&lt;"), ReplaceChar(b1, '<', "&lt;");
    ReplaceCharConcat(a2, b2, '>', "&gt;");
    var a3, b3 := ReplaceChar(a2, '>', "&gt;"), ReplaceChar(b2, '>', "&gt;");
    ReplaceCharConcat(a3, b3, '"', "&quot;");
    var a4, b4 := ReplaceChar(a3, '"', "&quot;"), ReplaceChar(b3, '"', "&quot;");
    ReplaceCharConcat(a4, b4, '\'', "&#39;");
  }

  /** Escaping `&` first makes the chain of global replacements the same as
      escaping every character on its own: no replacement touches the text an
      earlier one produced. */
  lemma {:induction false} EscChainIsPerChar(t: string)
    ensures EscChain(t) == EscapeEach(t)
    decreases |t|
  {
    if |t| > 0 {
      assert t == [t[0]] + t[1..];
      EscChainConcat([t[0]], t[1..]);
      EscChainOfChar(t[0]);
      EscChainIsPerChar(t[1..]);
    }
  }

  /** `escHtml(s)`: the text of `s` (empty for a falsy value) with the five
      HTML-special characters replaced by entities. */
  function EscHtml(s: JsValue): (r: string)
    ensures r == EscapeEach(if Truthy(s) then ToStr(s) else "")
  {
    var t := if Truthy(s) then ToStr(s) else "";
    EscChainIsPerChar(t);
    EscChain(t)
  }

  /** `s[i..]` starts with one of the five entities. */
  predicate EntityAt(s: string, i: nat) {
    i <= |s| && EntityStart(s[i..])
  }

  predicate EntityStart(t: string) {
    IsPrefix("&amp;", t) || IsPrefix("&lt;", t) || IsPrefix("&gt;", t) || IsPrefix("&quot;", t) || IsPrefix("&#39;", t)
  }

  predicate NoRawSpecial(s: string) {
    forall i :: 0 <= i < |s| ==> s[i] != '<' && s[i] != '>' && s[i] != '"' && s[i] != '\''
  }

  predicate AmpersandsStartEntities(s: string) {
    forall i :: 0 <= i < |s| && s[i] == '&' ==> EntityAt(s, i)
  }

  lemma EscCharSafe(c: char)
    ensures NoRawSpecial(EscChar(c)) && AmpersandsStartEntities(EscChar(c))
  {
    var e := EscChar(c);
    if c == '&' || c == '<' || c == '>' || c == '"' || c == '\'' {
      assert e[0] == '&' && forall i :: 1 <= i < |e| ==> e[i] != '&';
      assert e[0..] == e && e[..|e|] == e;
      assert EntityAt(e, 0);
    }
  }

  /** A text that starts with `e` still does after more text is appended. */
  lemma PrefixExtends(e: string, x: string, y: string)
    requires IsPrefix(e, x)
    ensures IsPrefix(e, x + y)
  {
    assert (x + y)[..|e|] == x[..|e|];
  }

  /** An entity survives being followed by more text. */
  lemma EntityAtPrefix(a: string, b: string, i: nat)
    requires EntityAt(a, i)
    ensures EntityAt(a + b, i)
  {
    var x := a[i..];
    assert (a + b)[i..] == x + b;
    if IsPrefix("&amp;", x) { PrefixExtends("&amp;", x, b); }
    else if IsPrefix("&lt;", x) { PrefixExtends("&lt;", x, b); }
    else if IsPrefix("&gt;", x) { PrefixExtends("&gt;", x, b); }
    else if IsPrefix("&quot;", x) { PrefixExtends("&quot;", x, b); }
    else { PrefixExtends("&#39;", x, b); }
  }

  /** An entity survives being preceded by more text. */
  lemma EntityAtSuffix(a: string, b: string, i: nat)
    requires EntityAt(b, i)
    ensures EntityAt(a + b, |a| + i)
  {
    assert (a + b)[|a| + i..] == b[i..];
  }

  lemma NoRawConcat(a: string, b: string)
    requires NoRawSpecial(a) && NoRawSpecial(b)
    ensures NoRawSpecial(a + b)
  {
    forall i | 0 <= i < |a + b|
      ensures (a + b)[i] != '<' && (a + b)[i] != '>' && (a + b)[i] != '"' && (a + b)[i] != '\''
    {
      if i < |a| {
        assert (a + b)[i] == a[i];
      } else {
        assert (a + b)[i] == b[i - |a|];
      }
    }
  }

  lemma AmpersandsConcat(a: string, b: string)
    requires AmpersandsStartEntities(a) && AmpersandsStartEntities(b)
    ensures AmpersandsStartEntities(a + b)
  {
    forall i | 0 <= i < |a + b| && (a + b)[i] == '&'
      ensures EntityAt(a + b, i)
    {
      if i < |a| {
        assert a[i] == '&';
        EntityAtPrefix(a, b, i);
      } else {
        assert b[i - |a|] == '&';
        EntityAtSuffix(a, b, i - |a|);
      }
    }
  }

  /** Escaped text holds no raw `<`, `>`, `"` or `'`, and every `&` in it
      begins an entity. */
  lemma {:induction false} EscapeEachSafe(t: string)
    ensures NoRawSpecial(EscapeEach(t)) && AmpersandsStartEntities(EscapeEach(t))
    decreases |t|
  {
    if |t| > 0 {
      EscCharSafe(t[0]);
      EscapeEachSafe(t[1..]);
      NoRawConcat(EscChar(t[0]), EscapeEach(t[1..]));
      AmpersandsConcat(EscChar(t[0]), EscapeEach(t[1..]));
    }
  }

  /** The decoder a browser applies to the five entities. */
  function Unescape(s: string): string
    decreases |s|
  {
    if |s| == 0 then []
    else if IsPrefix("&amp;", s) then ['&'] + Unescape(s[5..])
    else if IsPrefix("&lt;", s) then ['<'] + Unescape(s[4..])
    else if IsPrefix("&gt;", s) then ['>'] + Unescape(s[4..])
    else if IsPrefix("&quot;", s) then ['"'] + Unescape(s[6..])
    else if IsPrefix("&#39;", s) then ['\''] + Unescape(s[5..])
    else [s[0]] + Unescape(s[1..])
  }

  /** A text differing from `t` at offset `k` does not start with `t`. */
  lemma DiffersAt(t: string, s: string, k: nat)
    requires k < |t| && k < |s| && s[k] != t[k]
    ensures !IsPrefix(t, s)
  {
    if |t| <= |s| {
      assert s[..|t|][k] == s[k];
    }
  }

  /** An entity followed by more text starts that text, and is followed by it. */
  lemma EntityThenRest(e: string, rest: string)
    ensures IsPrefix(e, e + rest) && (e + rest)[|e|..] == rest
  {
    assert (e + rest)[..|e|] == e;
  }

  lemma UnescapePlain(c: char, rest: string)
    requires c != '&'
    ensures Unescape([c] + rest) == [c] + Unescape(rest)
  {
    var s := [c] + rest;
    DiffersAt("&amp;", s, 0);
    DiffersAt("&lt;", s, 0);
    DiffersAt("&gt;", s, 0);
    DiffersAt("&quot;", s, 0);
    DiffersAt("&#39;", s, 0);
    assert s[1..] == rest;
  }

  lemma UnescapeLt(rest: string)
    ensures Unescape("&lt;" + rest) == ['<'] + Unescape(rest)
  {
    var s := "&lt;" + rest;
    EntityThenRest("&lt;", rest);
    DiffersAt("&amp;", s, 1);
  }

  lemma UnescapeGt(rest: string)
    ensures Unescape("&gt;" + rest) == ['>'] + Unescape(rest)
  {
    var s := "&gt;" + rest;
    EntityThenRest("&gt;", rest);
    DiffersAt("&amp;", s, 1);
    DiffersAt("&lt;", s, 1);
  }

  lemma UnescapeQuot(rest: string)
    ensures Unescape("&quot;" + rest) == ['"'] + Unescape(rest)
  {
    var s := "&quot;" + rest;
    EntityThenRest("&quot;", rest);
    DiffersAt("&amp;", s, 1);
    DiffersAt("&lt;", s, 1);
    DiffersAt("&gt;", s, 1);
  }

  lemma UnescapeApos(rest: string)
    ensures Unescape("&#39;" + rest) == ['\''] + Unescape(rest)
  {
    var s := "&#39;" + rest;
    EntityThenRest("&#39;", rest);
    DiffersAt("&amp;", s, 1);
    DiffersAt("&lt;", s, 1);
    DiffersAt("&gt;", s, 1);
    DiffersAt("&quot;", s, 1);
  }

  lemma UnescapeChar(c: char, rest: string)
    ensures Unescape(EscChar(c) + rest) == [c] + Unescape(rest)
  {
    if c == '&' {
      EntityThenRest("&amp;", rest);
    } else if c == '<' {
      UnescapeLt(rest);
    } else if c == '>' {
      UnescapeGt(rest);
    } else if c == '"' {
      UnescapeQuot(rest);
    } else if c == '\'' {
      UnescapeApos(rest);
    } else {
      UnescapePlain(c, rest);
    }
  }

  /** Decoding the escaped text gives back the original text. */
  lemma {:induction false} UnescapeEscape(t: string)
    ensures Unescape(EscapeEach(t)) == t
    decreases |t|
  {
    if |t| > 0 {
      UnescapeChar(t[0], EscapeEach(t[1..]));
      UnescapeEscape(t[1..]);
      assert t == [t[0]] + t[1..];
    }
  }

  /** Everything `escHtml` returns is safe to place in markup, and decodes to
      the text it was given. */
  lemma EscHtmlSafe(s: JsValue)
    ensures NoRawSpecial(EscHtml(s)) && AmpersandsStartEntities(EscHtml(s))
    ensures Unescape(EscHtml(s)) == (if Truthy(s) then ToStr(s) else "")
  {
    var t := if Truthy(s) then ToStr(s) else "";
    EscapeEachSafe(t);
    UnescapeEscape(t);
  }

  // ---------------------------------------------------------------------------
  // The year guard
  // ---------------------------------------------------------------------------

  /** `Number(active.year || 0)`, kept only inside [1900, 2100] and 0
      otherwise (NaN included). */
  function DisplayYear(year: JsValue): (r: int)
    ensures r == 0 || 1900 <= r <= 2100
    ensures var n := if Truthy(year) then ToNumber(year) else Some(0);
      n.Some? && 1900 <= n.value <= 2100 ==> r == n.value
    ensures var n := if Truthy(year) then ToNumber(year) else Some(0);
      !(n.Some? && 1900 <= n.value <= 2100) ==> r == 0
  {
    var n := if Truthy(year) then ToNumber(year) else Some(0);
    if n.Some? && 1900 <= n.value <= 2100 then n.value else 0
  }

  /** A year a local player reports in its metadata reaches the widget intact:
      the refresh parses it, the sync copies it into the `mpris` record, and the
      year guard shows it. A track without a year is stored as 0 and shows none. */
  lemma MetadataYearShown(prev: SourceState, name: string, all: map<string, JsValue>, t0: int, now: int)
    ensures var y := ParseMetadata(MetadataOf(all)).year;
      var s := MprisRecord(prev, Snapshot(name, all, t0), now);
      && s.year.Some?
      && (y.Some? ==> DisplayYear(Num(s.year.value)) == y.value)
      && (y.None? ==> DisplayYear(Num(s.year.value)) == 0)
  {
    var y := ParseMetadata(MetadataOf(all)).year;
    var p := Snapshot(name, all, t0);
    assert p.year == y;
    var s := MprisRecord(prev, p, now);
    assert s.year == Some(if y.Some? then y.value else 0);
    StoredYearShown(y);
  }

  /** The year guard on a stored year: a year in the metadata range shows,
      the 0 stored for a missing year does not. */
  lemma StoredYearShown(y: Option<int>)
    requires y.Some? ==> 1900 <= y.value <= 2099
    ensures y.Some? ==> DisplayYear(Num(y.value)) == y.value
    ensures DisplayYear(Num(if y.Some? then y.value else 0)) == if y.Some? then y.value else 0
  {
  }
}
