// Localisation (src/i18n.rs): the UI language chosen from a locale tag,
// the locale file it reads, message templates with `{key}` placeholders,
// the relative-age label of a bookmark and the fallback when a locale file
// cannot be loaded.
module I18n {
  import opened Wrappers
  import Text
  import Decimal

  datatype Language = ZhCn | EnUs

  /** A tag as `from_locale_tag` compares it: trimmed and ASCII-lowercased. */
  function NormalizeTag(raw: string): (tag: string)
    ensures |tag| <= |raw|
  {
    Text.ToAsciiLowercase(Text.Trim(raw))
  }

  /** The tags `from_locale_tag` reads as Chinese. */
  predicate IsChineseTag(tag: string)
  {
    || Text.StartsWith(tag, "zh")
    || tag == "cn"
    || Text.StartsWith(tag, "cn_")
    || Text.StartsWith(tag, "cn-")
    || Text.Contains(tag, "_zh")
    || Text.Contains(tag, "-zh")
  }

  /** `Language::from_locale_tag`: Chinese for the tags above, English for
      everything else, a blank tag included. */
  function FromLocaleTag(raw: string): (r: Language)
    ensures Text.IsBlank(raw) ==> r == EnUs
    ensures r == ZhCn <==> IsChineseTag(NormalizeTag(raw))
  {
    var tag := NormalizeTag(raw);
    if tag == [] then EnUs
    else if IsChineseTag(tag) then ZhCn
    else EnUs
  }

  lemma {:induction false} LowercaseTail(s: string)
    requires s != []
    ensures Text.ToAsciiLowercase(s[1..]) == Text.ToAsciiLowercase(s)[1..]
    ensures Text.ToAsciiLowercase(s[..|s| - 1]) == Text.ToAsciiLowercase(s)[..|s| - 1]
    decreases |s|
  {
    var l := Text.ToAsciiLowercase(s);
    assert l == [Text.AsciiLower(s[0])] + Text.ToAsciiLowercase(s[1..]);
    if |s| > 1 {
      LowercaseTail(s[1..]);
      assert s[..|s| - 1] == [s[0]] + s[1..][..|s| - 2];
      assert s[..|s| - 1][1..] == s[1..][..|s| - 2];
    }
  }

  lemma {:induction false} TrimStartLowercase(s: string)
    ensures Text.TrimStart(Text.ToAsciiLowercase(s)) == Text.ToAsciiLowercase(Text.TrimStart(s))
    decreases |s|
  {
    var l := Text.ToAsciiLowercase(s);
    if s != [] {
      assert Text.IsWhitespace(l[0]) <==> Text.IsWhitespace(s[0]);
      LowercaseTail(s);
      TrimStartLowercase(s[1..]);
    }
  }

  lemma {:induction false} TrimEndLowercase(s: string)
    ensures Text.TrimEnd(Text.ToAsciiLowercase(s)) == Text.ToAsciiLowercase(Text.TrimEnd(s))
    decreases |s|
  {
    var l := Text.ToAsciiLowercase(s);
    if s != [] {
      assert Text.IsWhitespace(l[|s| - 1]) <==> Text.IsWhitespace(s[|s| - 1]);
      LowercaseTail(s);
      TrimEndLowercase(s[..|s| - 1]);
    }
  }

  /** The classification does not depend on letter case. */
  lemma FromLocaleTagIgnoresCase(raw: string)
    ensures FromLocaleTag(Text.ToAsciiLowercase(raw)) == FromLocaleTag(raw)
  {
    TrimStartLowercase(raw);
    TrimEndLowercase(Text.TrimStart(raw));
    Text.LowercaseIdempotent(Text.Trim(raw));
  }

  /** Every tag whose first two letters are `zh`, in any letter case,
      classifies as Chinese, whatever follows them. */
  lemma ZhTagsAreChinese(raw: string)
    requires |raw| >= 2 && Text.AsciiLower(raw[0]) == 'z' && Text.AsciiLower(raw[1]) == 'h'
    ensures FromLocaleTag(raw) == ZhCn
  {
    assert !Text.IsWhitespace(raw[0]) && !Text.IsWhitespace(raw[1]);
    assert Text.TrimStart(raw) == raw;
    var t := Text.TrimEnd(raw);
    assert |t| >= 2;
    assert t[0] == raw[0] && t[1] == raw[1];
    var tag := NormalizeTag(raw);
    assert tag[..2] == "zh";
  }

  /** `trim_start` of a concatenation: the leading white space of the
      first part goes, and when that part is all white space the second
      part is trimmed as well. */
  lemma {:induction false} TrimStartAppend(s: string, w: string)
    ensures Text.TrimStart(s + w) == if Text.AllWhitespace(s) then Text.TrimStart(w) else Text.TrimStart(s) + w
    decreases |s|
  {
    if s == [] {
      assert s + w == w;
    } else if Text.IsWhitespace(s[0]) {
      assert (s + w)[1..] == s[1..] + w;
      TrimStartAppend(s[1..], w);
      AllWhitespaceCons(s);
    } else {
      assert (s + w)[0] == s[0];
    }
  }

  lemma AllWhitespaceCons(s: string)
    requires s != [] && Text.IsWhitespace(s[0])
    ensures Text.AllWhitespace(s) <==> Text.AllWhitespace(s[1..])
  {
    if Text.AllWhitespace(s[1..]) {
      assert forall i :: 1 <= i < |s| ==> s[i] == s[1..][i - 1];
    }
  }

  /** `trim_end` ignores white space appended to the text. */
  lemma {:induction false} TrimEndAppendWhitespace(s: string, w: string)
    requires Text.AllWhitespace(w)
    ensures Text.TrimEnd(s + w) == Text.TrimEnd(s)
    decreases |w|
  {
    if w != [] {
      var x := s + w;
      assert x[|x| - 1] == w[|w| - 1];
      assert x[..|x| - 1] == s + w[..|w| - 1];
      TrimEndAppendWhitespace(s, w[..|w| - 1]);
    } else {
      assert s + w == s;
    }
  }

  /** All white space trims to nothing from the start. */
  lemma TrimStartAllWhitespace(w: string)
    requires Text.AllWhitespace(w)
    ensures Text.TrimStart(w) == []
  {
  }

  /** `trim` ignores white space around the text. */
  lemma TrimPadded(before: string, raw: string, after: string)
    requires Text.AllWhitespace(before) && Text.AllWhitespace(after)
    ensures Text.Trim(before + raw + after) == Text.Trim(raw)
  {
    var x := before + raw + after;
    assert x == before + (raw + after);
    TrimStartAppend(before, raw + after);
    TrimStartAppend(raw, after);
    TrimStartAllWhitespace(after);
    assert Text.TrimStart(x) == Text.TrimStart(raw + after);
    if Text.AllWhitespace(raw) {
      TrimStartAllWhitespace(raw);
      assert Text.TrimStart(x) == [];
    } else {
      assert Text.TrimStart(x) == Text.TrimStart(raw) + after;
      TrimEndAppendWhitespace(Text.TrimStart(raw), after);
    }
  }

  /** White space around a tag does not change its classification. */
  lemma SurroundingWhitespaceIgnored(before: string, raw: string, after: string)
    requires Text.AllWhitespace(before) && Text.AllWhitespace(after)
    ensures FromLocaleTag(before + raw + after) == FromLocaleTag(raw)
  {
    TrimPadded(before, raw, after);
  }

  /** `Language::file_name`. */
  function FileName(lang: Language): (r: string)
    ensures lang == ZhCn ==> r == "zh_CN.json"
    ensures lang == EnUs ==> r == "en_US.json"
  {
    match lang
    case ZhCn => "zh_CN.json"
    case EnUs => "en_US.json"
  }

  /** `{key}`: the placeholder a template variable fills. */
  function Token(key: string): (t: string)
    ensures t != [] && |t| == |key| + 2
  {
    "{" + key + "}"
  }

  /** What `format_template` computes: each variable's placeholder replaced
      in turn, in the order the variables are given. */
  function Formatted(template: string, vars: seq<(string, string)>): string
  {
    if vars == [] then template
    else
      var last := vars[|vars| - 1];
      Text.Replace(Formatted(template, vars[..|vars| - 1]), Token(last.0), last.1)
  }

  /** `format_template`. */
  method FormatTemplate(template: string, vars: seq<(string, string)>) returns (output: string)
    ensures output == Formatted(template, vars)
  {
    output := template;
    for i := 0 to |vars|
      invariant output == Formatted(template, vars[..i])
    {
      assert vars[..i + 1][..i] == vars[..i];
      var (key, value) := vars[i];
      output := Text.Replace(output, Token(key), value);
    }
    assert vars[..|vars|] == vars;
  }

  /** A template without any of the placeholders is returned unchanged. */
  lemma {:induction false} FormattedWithoutPlaceholders(template: string, vars: seq<(string, string)>)
    requires forall i :: 0 <= i < |vars| ==> !Text.Contains(template, Token(vars[i].0))
    ensures Formatted(template, vars) == template
  {
    if vars != [] {
      FormattedWithoutPlaceholders(template, vars[..|vars| - 1]);
      Text.ReplaceAbsent(template, Token(vars[|vars| - 1].0), vars[|vars| - 1].1);
    }
  }

  /** A template that is just one placeholder becomes that variable's value. */
  lemma FormattedPlaceholder(key: string, value: string)
    ensures Formatted(Token(key), [(key, value)]) == value
  {
    assert [(key, value)][..0] == [];
    Text.ReplaceWhole(Token(key), value);
  }

  /** The four templates of the relative bookmark age. */
  datatype RelativeMessages = RelativeMessages(justNow: string, minutes: string, hours: string, days: string)

  datatype AgeUnit = JustNow | Minutes | Hours | Days

  /** The bucket of an age in seconds and the whole number of units in it. */
  function AgeBucket(secondsAgo: nat): (r: (AgeUnit, nat))
    ensures r.0 == JustNow <==> secondsAgo < 60
    ensures r.0 == Minutes ==> 60 <= secondsAgo < 3600 && 1 <= r.1 < 60
                               && r.1 * 60 <= secondsAgo < r.1 * 60 + 60
    ensures r.0 == Hours ==> 3600 <= secondsAgo < 86400 && 1 <= r.1 < 24
                             && r.1 * 3600 <= secondsAgo < r.1 * 3600 + 3600
    ensures r.0 == Days ==> 86400 <= secondsAgo && 1 <= r.1
                            && r.1 * 86400 <= secondsAgo < r.1 * 86400 + 86400
  {
    if secondsAgo < 60 then (JustNow, 0)
    else if secondsAgo < 3600 then (Minutes, secondsAgo / 60)
    else if secondsAgo < 86400 then (Hours, secondsAgo / 3600)
    else (Days, secondsAgo / 86400)
  }

  /** `bookmark_added_relative`. */
  function BookmarkAddedRelative(m: RelativeMessages, secondsAgo: nat): (r: string)
    ensures secondsAgo < 60 ==> r == m.justNow
    ensures 60 <= secondsAgo < 3600 ==> r == Formatted(m.minutes, [("minutes", Decimal.NatToString(AgeBucket(secondsAgo).1))])
    ensures 3600 <= secondsAgo < 86400 ==> r == Formatted(m.hours, [("hours", Decimal.NatToString(AgeBucket(secondsAgo).1))])
    ensures 86400 <= secondsAgo ==> r == Formatted(m.days, [("days", Decimal.NatToString(AgeBucket(secondsAgo).1))])
  {
    var (unit, count) := AgeBucket(secondsAgo);
    match unit
    case JustNow => m.justNow
    case Minutes => Formatted(m.minutes, [("minutes", Decimal.NatToString(count))])
    case Hours => Formatted(m.hours, [("hours", Decimal.NatToString(count))])
    case Days => Formatted(m.days, [("days", Decimal.NatToString(count))])
  }

  /** The order in which `bookmark_added_relative` moves through the units. */
  function UnitRank(u: AgeUnit): nat
  {
    match u
    case JustNow => 0
    case Minutes => 1
    case Hours => 2
    case Days => 3
  }

  /** An older bookmark never shows a smaller age: its unit is the same or
      a larger one, and in the same unit its count is not smaller. */
  lemma AgeBucketMonotone(younger: nat, older: nat)
    requires younger <= older
    ensures UnitRank(AgeBucket(younger).0) <= UnitRank(AgeBucket(older).0)
    ensures AgeBucket(younger).0 == AgeBucket(older).0 ==> AgeBucket(younger).1 <= AgeBucket(older).1
  {
  }

  /** `load_messages`, with `try_load_messages` passed in: None stands for
      the panic when neither the wanted nor the English file loads. */
  function LoadMessages<M>(lang: Language, tryLoad: Language -> Option<M>): (r: Option<M>)
    ensures tryLoad(lang).Some? ==> r == tryLoad(lang)
    ensures tryLoad(lang).None? && lang == EnUs ==> r.None?
    ensures tryLoad(lang).None? && lang == ZhCn ==> r == tryLoad(EnUs)
    ensures r.Some? <==> tryLoad(lang).Some? || tryLoad(EnUs).Some?
  {
    match tryLoad(lang)
    case Some(messages) => Some(messages)
    case None => if lang == EnUs then None else tryLoad(EnUs)
  }
}
