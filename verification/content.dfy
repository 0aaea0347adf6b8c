/** The pure helpers of the content store: what it reads out of a markdown
    file (title, body, page name), the url and the Atom id it gives an
    entry, and the check that an entry is dated. */
module Content {
  import opened Results
  import opened Text
  import opened Dates

  /** `s.substr(s.indexOf('#'))`: the text from the first "#" on. When there
      is no "#", `indexOf` yields -1 and `substr(-1)` keeps only the last
      character. */
  function FromFirstHash(s: string): (r: string)
    ensures |r| <= |s| && r == s[|s| - |r|..]
    ensures '#' in s ==> |r| > 0 && r[0] == '#' && '#' !in s[..|s| - |r|]
    ensures '#' !in s ==> |r| == if |s| == 0 then 0 else 1
  {
    Substr(s, IndexOf(s, '#'))
  }

  lemma FromHeading(pre: string, rest: string)
    requires '#' !in pre
    ensures FromFirstHash(pre + "#" + rest) == "#" + rest
  {
    var s := pre + "#" + rest;
    assert s[..|pre|] == pre && s[|pre|] == '#';
    var r := FromFirstHash(s);
    assert |s| - |r| == |pre|;
    assert s[|pre|..] == "#" + rest;
  }

  /** `extractTitle`: the first "#" must be followed by whitespace; the
      title is what follows that whitespace (line breaks included) up to the
      end of the line. */
  function ExtractTitle(body: string): (r: string)
    ensures forall i :: 0 <= i < |r| ==> !IsLineTerminator(r[i])
    ensures |r| > 0 ==> !IsSpace(r[0])
  {
    HeadingTitle(FromFirstHash(body))
  }

  /** The match of `/^#\s+(.*)/` against `rest`, or "" when it fails. */
  function HeadingTitle(rest: string): (r: string)
    ensures forall i :: 0 <= i < |r| ==> !IsLineTerminator(r[i])
    ensures |r| > 0 ==> !IsSpace(r[0])
  {
    if |rest| > 1 && rest[0] == '#' && IsSpace(rest[1]) then
      var k := SkipSpaces(rest, 1);
      rest[k..LineEnd(rest, k)]
    else ""
  }

  lemma NoHashNoTitle(body: string)
    requires '#' !in body
    ensures ExtractTitle(body) == ""
  {
  }

  /** A "#" that is not followed by whitespace starts no title. */
  lemma HashWithoutSpaceNoTitle(pre: string, rest: string)
    requires '#' !in pre
    requires |rest| == 0 || !IsSpace(rest[0])
    ensures ExtractTitle(pre + "#" + rest) == ""
  {
    FromHeading(pre, rest);
    var r := "#" + rest;
    assert |r| > 1 ==> r[1] == rest[0];
  }

  /** A heading: the first "#", a run of whitespace `w`, the title up to a
      line break or the end. An empty title is only read at the very end,
      since a line break after the spaces would belong to the run. */
  lemma TitleOfHeading(pre: string, w: string, title: string, tail: string)
    requires '#' !in pre
    requires |w| > 0 && AllSpace(w)
    requires forall i :: 0 <= i < |title| ==> !IsLineTerminator(title[i])
    requires |title| > 0 ==> !IsSpace(title[0])
    requires |title| == 0 ==> |tail| == 0
    requires |tail| == 0 || IsLineTerminator(tail[0])
    ensures ExtractTitle(pre + "#" + w + title + tail) == title
  {
    var rest := w + title + tail;
    var s := pre + "#" + w + title + tail;
    assert s == pre + "#" + rest;
    FromHeading(pre, rest);
    assert FromFirstHash(s) == "#" + rest;
    HeadingTitleOf(w, title, tail);
  }

  lemma HeadingTitleOf(w: string, title: string, tail: string)
    requires |w| > 0 && AllSpace(w)
    requires forall i :: 0 <= i < |title| ==> !IsLineTerminator(title[i])
    requires |title| > 0 ==> !IsSpace(title[0])
    requires |title| == 0 ==> |tail| == 0
    requires |tail| == 0 || IsLineTerminator(tail[0])
    ensures HeadingTitle("#" + (w + title + tail)) == title
  {
    HeadingSlices(w, title, tail);
    TitleAt("#" + (w + title + tail), 1 + |w|, 1 + |w| + |title|);
  }

  lemma HeadingSlices(w: string, title: string, tail: string)
    ensures var r := "#" + (w + title + tail);
      && |r| == 1 + |w| + |title| + |tail|
      && r[0] == '#' && r[1..1 + |w|] == w
      && r[1 + |w|..1 + |w| + |title|] == title
      && r[1 + |w| + |title|..] == tail
  {
  }

  /** The title found when the spaces after the "#" run up to `a` and the
      line ends at `b`. */
  lemma TitleAt(r: string, a: nat, b: nat)
    requires 1 < a <= b <= |r| && r[0] == '#'
    requires AllSpace(r[1..a])
    requires forall i :: a <= i < b ==> !IsLineTerminator(r[i])
    requires a < b ==> !IsSpace(r[a])
    requires a == b ==> b == |r|
    requires b < |r| ==> IsLineTerminator(r[b])
    ensures HeadingTitle(r) == r[a..b]
  {
    assert IsSpace(r[1..a][0]);
    SkipRun(r, 1, a);
    LineEndAt(r, a, b);
  }

  lemma SkipRun(s: string, i: nat, k: nat)
    requires i <= k <= |s|
    requires AllSpace(s[i..k])
    requires k < |s| ==> !IsSpace(s[k])
    ensures SkipSpaces(s, i) == k
    decreases k - i
  {
    if i < k {
      assert s[i] == s[i..k][0];
      assert s[i + 1..k] == s[i..k][1..];
      SkipRun(s, i + 1, k);
    }
  }

  lemma LineEndAt(s: string, i: nat, k: nat)
    requires i <= k <= |s|
    requires forall j :: i <= j < k ==> !IsLineTerminator(s[j])
    requires k < |s| ==> IsLineTerminator(s[k])
    ensures LineEnd(s, i) == k
    decreases k - i
  {
    if i < k {
      LineEndAt(s, i + 1, k);
    }
  }

  /** `extractBody`: the text from the first "#" on, trimmed. */
  function ExtractBody(source: string): (r: string)
    ensures |r| > 0 ==> !IsSpace(r[0]) && !IsSpace(r[|r| - 1])
  {
    var t := FromFirstHash(source);
    TrimEnds(t);
    Trim(t)
  }

  /** With a "#", the body starts at that "#" and only loses its trailing
      whitespace. */
  lemma BodyOfHeading(pre: string, rest: string)
    requires '#' !in pre
    ensures ExtractBody(pre + "#" + rest) == TrimEnd("#" + rest)
    ensures |ExtractBody(pre + "#" + rest)| > 0 && ExtractBody(pre + "#" + rest)[0] == '#'
  {
    FromHeading(pre, rest);
    TrimNoLeadingSpace("#" + rest);
  }

  /** Without a "#", all that is kept is the last character of the source,
      unless it is whitespace. */
  lemma BodyWithoutHash(source: string)
    requires '#' !in source && |source| > 0
    ensures ExtractBody(source) == if IsSpace(source[|source| - 1]) then "" else [source[|source| - 1]]
  {
    var r := FromFirstHash(source);
    assert r == [source[|source| - 1]];
    TrimOne(source[|source| - 1]);
  }

  /** `path.parse(p).base`: the part after the last "/". */
  function BaseName(p: string): (r: string)
    ensures '/' !in r
    ensures |r| <= |p| && r == p[|p| - |r|..]
    ensures |r| == |p| || p[|p| - |r| - 1] == '/'
  {
    p[LastIndexOf(p, '/') + 1..]
  }

  /** `path.parse(p).name`: the base name without its extension. The
      extension starts at the last "." of the base name, unless that dot is
      its first character or the base name is "..". */
  function PageName(p: string): (r: string)
    ensures '/' !in r
  {
    var b := BaseName(p);
    var d := LastIndexOf(b, '.');
    if d <= 0 || b == ".." then b else b[..d]
  }

  /** A markdown page is named after its file. */
  lemma PageNameOfFile(dir: string, n: string)
    requires |n| > 0 && '/' !in n
    ensures PageName(dir + "/" + n + ".md") == n
  {
    var p := dir + "/" + n + ".md";
    var b := n + ".md";
    assert p[|dir|] == '/' && p[|dir| + 1..] == b;
    assert LastIndexOf(p, '/') == |dir|;
    assert BaseName(p) == b;
    assert b[|n|] == '.' && b[|n| + 1..] == "md";
    assert LastIndexOf(b, '.') == |n|;
    assert b[..|n|] == n;
  }

  /** `slugify(title || fileName)`: the slug is made from the title, or from
      the whole file path when the title is empty. */
  function Slug(slugify: string -> string, fileName: string, title: string): string {
    slugify(if title == "" then fileName else title)
  }

  /** `genURL`: the second to fourth `toString` tokens, reversed and joined
      by "/", then the slug. */
  function GenURL(slugify: string -> string, fileName: string, title: string, date: ValidDate): (r: string)
    ensures r == YearToken(date) + "/" + LowerAscii(MonthName(date.month)) + "/" + DayToken(date) + "/" + Slug(slugify, fileName, title)
    ensures r[|YearToken(date)|] == '/'
  {
    ToStringTokens(date);
    var parts := Reverse(SplitSpaces(ToString(date))[1..4]);
    parts[0] + "/" + LowerAscii(parts[2]) + "/" + parts[1] + "/" + Slug(slugify, fileName, title)
  }

  /** Two entries get the same url exactly when they fall on the same
      calendar day and get the same slug. */
  lemma GenURLInjective(slugify: string -> string, f1: string, t1: string, d1: ValidDate, f2: string, t2: string, d2: ValidDate)
    ensures GenURL(slugify, f1, t1, d1) == GenURL(slugify, f2, t2, d2) <==>
      && d1.year == d2.year && d1.month == d2.month && d1.day == d2.day
      && Slug(slugify, f1, t1) == Slug(slugify, f2, t2)
  {
    if GenURL(slugify, f1, t1, d1) == GenURL(slugify, f2, t2, d2) {
      YearTokenSeparators(d1);
      YearTokenSeparators(d2);
      DayTokenRoundTrip(d1);
      DayTokenRoundTrip(d2);
      UrlFields(YearToken(d1), LowerAscii(MonthName(d1.month)), DayToken(d1), Slug(slugify, f1, t1),
                YearToken(d2), LowerAscii(MonthName(d2.month)), DayToken(d2), Slug(slugify, f2, t2));
      YearsFromTokens(d1, d2);
      LowerMonthInjective(d1.month, d2.month);
      DayFromTokens(d1, d2);
    }
  }

  /** A url "y/m/d/slug" splits back into its fields when the year has no
      "/" and the month and day have fixed widths. */
  lemma UrlFields(y1: string, m1: string, a1: string, s1: string, y2: string, m2: string, a2: string, s2: string)
    requires '/' !in y1 && '/' !in y2 && |m1| == |m2| && |a1| == |a2|
    requires y1 + "/" + m1 + "/" + a1 + "/" + s1 == y2 + "/" + m2 + "/" + a2 + "/" + s2
    ensures y1 == y2 && m1 == m2 && a1 == a2 && s1 == s2
  {
    var x1 := m1 + "/" + a1 + "/" + s1;
    var x2 := m2 + "/" + a2 + "/" + s2;
    assert y1 + "/" + m1 + "/" + a1 + "/" + s1 == y1 + ['/'] + x1;
    assert y2 + "/" + m2 + "/" + a2 + "/" + s2 == y2 + ['/'] + x2;
    SplitAtFirst(y1, x1, y2, x2, '/');
    assert x1 == m1 + ("/" + a1 + "/" + s1) && x2 == m2 + ("/" + a2 + "/" + s2);
    SplitAtLength(m1, "/" + a1 + "/" + s1, m2, "/" + a2 + "/" + s2);
    assert "/" + a1 + "/" + s1 == ("/" + a1) + ("/" + s1);
    assert "/" + a2 + "/" + s2 == ("/" + a2) + ("/" + s2);
    SplitAtLength("/" + a1, "/" + s1, "/" + a2, "/" + s2);
    assert a1 == ("/" + a1)[1..] && a2 == ("/" + a2)[1..];
    assert s1 == ("/" + s1)[1..] && s2 == ("/" + s2)[1..];
  }

  lemma DayFromTokens(d1: ValidDate, d2: ValidDate)
    requires DayToken(d1) == DayToken(d2)
    ensures d1.day == d2.day
  {
    DayTokenRoundTrip(d1);
    DayTokenRoundTrip(d2);
  }

  lemma YearsFromTokens(d1: Date, d2: Date)
    requires YearToken(d1) == YearToken(d2)
    ensures d1.year == d2.year
  {
    YearTokenRoundTrip(d1);
    YearTokenRoundTrip(d2);
  }

  /** The tagging entity of the Atom ids, as a domain name. */
  const TagDomain: string := "hire.jonasgalvez.com.br"

  /** "tag:" authority ",", the part of a tag URI (RFC 4151, section 2.1)
      before the date. */
  const TagPrefix: string := "tag:" + TagDomain + ","

  /** `genID`: a tag URI whose date is the entry's year and whose specific
      part is its url. */
  function GenID(date: Date, url: string): (r: string)
    ensures |r| > |TagPrefix| && r[..|TagPrefix|] == TagPrefix
  {
    TagPrefix + NumberString(date.year) + ":" + url
  }

  /** Reads a tag URI of this blog back into its year and specific part. */
  function ParseTag(id: string): (r: Option<(int, string)>)
  {
    if |id| < |TagPrefix| || id[..|TagPrefix|] != TagPrefix then None
    else
      var rest := id[|TagPrefix|..];
      var c := IndexOf(rest, ':');
      if c < 0 then None
      else
        match ReadInt(rest[..c])
        case None => None
        case Some(v) => Some((v, rest[c + 1..]))
  }

  /** An id reads back as the entry's year and url, so different urls, or
      different years, give different ids. */
  lemma TagRoundTrip(date: Date, url: string)
    ensures ParseTag(GenID(date, url)) == Some((date.year, url))
  {
    var y := NumberString(date.year);
    YearTextSeparators(date.year);
    TagFields(y, url);
  }

  lemma TagFields(y: string, url: string)
    requires ':' !in y
    ensures var id := TagPrefix + y + ":" + url;
      && |id| >= |TagPrefix| && id[..|TagPrefix|] == TagPrefix
      && IndexOf(id[|TagPrefix|..], ':') == |y|
      && id[|TagPrefix|..][..|y|] == y && id[|TagPrefix|..][|y| + 1..] == url
  {
    var id := TagPrefix + y + ":" + url;
    var rest := y + [':'] + url;
    assert id == TagPrefix + rest;
    assert id[|TagPrefix|..] == rest;
    FirstAt(y, url, ':');
    assert rest[..|y|] == y && rest[|y| + 1..] == url;
  }

  lemma YearTextSeparators(year: int)
    ensures |NumberString(year)| > 0 && ':' !in NumberString(year)
  {
    var y := NumberString(year);
    if year < 0 {
      var d := DecimalString(-year);
      assert forall i :: 1 <= i < |y| ==> y[i] == d[i - 1];
    }
  }

  /** For years 1000 to 9999 the date part of the id is the four-digit year
      RFC 4151 section 2.1 asks for. */
  lemma TagDateIsFourDigits(date: Date, url: string)
    requires 1000 <= date.year <= 9999
    ensures GenID(date, url) == TagPrefix + DecimalString(date.year) + ":" + url
    ensures |DecimalString(date.year)| == 4
  {
    var n: nat := date.year;
    NaturalNumberString(n);
    FourDigitString(n);
  }

  lemma FourDigitString(n: nat)
    requires 1000 <= n <= 9999
    ensures |DecimalString(n)| == 4
  {
    var a := n / 10;
    var b := a / 10;
    var c := b / 10;
    assert 100 <= a <= 999 && 10 <= b <= 99 && 1 <= c <= 9;
    assert |DecimalString(c)| == 1;
    assert |DecimalString(b)| == 2;
    assert |DecimalString(a)| == 3;
  }

  /** The front matter of an entry, as far as the store reads it: the raw
      `date` value (absent when the key is missing), the truth of `hidden`
      and `featured`, the content after the front matter and the excerpt. */
  datatype Matter = Matter(date: Option<string>, hidden: bool, featured: bool, content: string, excerpt: string)

  /** An entry whose date parsed: `published` keeps the date as written. */
  datatype Parsed = Parsed(date: ValidDate, published: string, hidden: bool, featured: bool, content: string, excerpt: string)

  /** `parseEntry(source, fileName)` after the front matter has been read:
      an entry whose date is missing or does not parse is rejected. */
  function ParseEntry(parseDate: string -> Option<ValidDate>, m: Matter, fileName: string): (r: Result<Parsed, string>)
    ensures r.Ok? <==> m.date.Some? && parseDate(m.date.value).Some?
    ensures r.Err? ==> r.error == fileName + " is not dated"
    ensures r.Ok? ==> Some(r.value.date) == parseDate(m.date.value) && r.value.published == m.date.value
    ensures r.Ok? ==> r.value.hidden == m.hidden && r.value.featured == m.featured
    ensures r.Ok? ==> r.value.content == m.content && r.value.excerpt == m.excerpt
  {
    match m.date
    case None => Err(fileName + " is not dated")
    case Some(raw) =>
      match parseDate(raw)
      case None => Err(fileName + " is not dated")
      case Some(d) => Ok(Parsed(d, raw, m.hidden, m.featured, m.content, m.excerpt))
  }
}
