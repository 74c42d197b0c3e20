/** `extractUrlsWithIndices`, `extractHashtagsWithIndices` and `extractHashtags`: what
    the library does with the match records PCRE hands back. Texts are PHP byte strings
    and every offset is a byte offset. */
module Extract {
  import opened Wrappers
  import Php
  import opened Entities

  type byte = Php.byte
  type Bytes = Php.Bytes

  /** One capture group of a `PREG_OFFSET_CAPTURE` match: its text and its byte offset. */
  datatype Capture = Capture(text: Bytes, offset: int)

  /** One match of the `extractUrl` pattern: the whole match (group 0) and the texts of
      groups 2 (preceding character), 3 (URL), 4 (protocol), 5 (domain) and 7 (path).
      A group that did not take part reads as the empty string. */
  datatype UrlMatch = UrlMatch(whole: Capture, before: Bytes, url: Bytes, protocol: Bytes, domain: Bytes, path: Bytes)

  /** The PCRE calls over the large grammars `init()` composes, as functions of the subject. */
  datatype Pcre = Pcre(
    /** `preg_match_all(extractUrl, $text, $m, PREG_OFFSET_CAPTURE)`, one record per match */
    extractUrl: Bytes -> seq<UrlMatch>,
    /** `preg_match_all(validAsciiDomain, $domain, $m)[0]` */
    validAsciiDomain: Bytes -> seq<Bytes>,
    /** `strpos($domain, $asciiDomaindomain, $asciiEndPosition)`: the needle is an undefined
        variable, so the offset it yields is taken as given */
    asciiStart: (Bytes, int) -> int,
    /** `preg_match(invalidShortDomain, $asciiDomain)` */
    invalidShortDomain: Bytes -> bool,
    /** group 3 (the tag without its hash sign) of `preg_match_all(validHashtag, $text, $m, PREG_OFFSET_CAPTURE)` */
    validHashtag: Bytes -> seq<Capture>
  )

  const Dot: byte := 0x2E
  const Colon: byte := 0x3A
  const Hash: byte := 0x23
  const Newline: byte := 0x0A
  /** U+FF03 FULLWIDTH NUMBER SIGN in UTF-8 */
  const FullwidthHash: Bytes := [0xEF, 0xBC, 0x83]
  /** "://" */
  const SchemeSeparator: Bytes := [0x3A, 0x2F, 0x2F]
  /** "https://t.co/" and "http://t.co/" */
  const HttpsTco: Bytes := [0x68, 0x74, 0x74, 0x70, 0x73, 0x3A, 0x2F, 0x2F, 0x74, 0x2E, 0x63, 0x6F, 0x2F]
  const HttpTco: Bytes := [0x68, 0x74, 0x74, 0x70, 0x3A, 0x2F, 0x2F, 0x74, 0x2E, 0x63, 0x6F, 0x2F]

  predicate StartsWith(s: Bytes, prefix: Bytes) {
    |prefix| <= |s| && s[..|prefix|] == prefix
  }

  predicate FullwidthHashAt(s: Bytes, i: int)
    requires 0 <= i && i + 3 <= |s|
  {
    s[i] == 0xEF && s[i + 1] == 0xBC && s[i + 2] == 0x83
  }

  /** The class `[#＃]` matches at byte offset i of text. */
  predicate HashSignAt(text: Bytes, i: nat)
    requires i <= |text|
  {
    StartsWith(text[i..], [Hash]) || StartsWith(text[i..], FullwidthHash)
  }

  /** `preg_match(hashSigns, $text)`, the class `[#＃]`: it matches at some offset. */
  function HasHashSign(text: Bytes): (r: bool)
    ensures r <==> exists i: nat :: i < |text| && HashSignAt(text, i)
  {
    HashSignSearch(text);
    Hash in text || exists i :: 0 <= i && i + 3 <= |text| && FullwidthHashAt(text, i)
  }

  lemma HashSignSearch(text: Bytes)
    ensures (Hash in text || exists i :: 0 <= i && i + 3 <= |text| && FullwidthHashAt(text, i))
            <==> exists i: nat :: i < |text| && HashSignAt(text, i)
  {
    if Hash in text {
      var i :| 0 <= i < |text| && text[i] == Hash;
      assert text[i..][..1] == [Hash];
      assert HashSignAt(text, i);
    } else if exists i :: 0 <= i && i + 3 <= |text| && FullwidthHashAt(text, i) {
      var i :| 0 <= i && i + 3 <= |text| && FullwidthHashAt(text, i);
      assert text[i..][..3] == FullwidthHash;
      assert HashSignAt(text, i);
    }
    if exists i: nat :: i < |text| && HashSignAt(text, i) {
      var i: nat :| i < |text| && HashSignAt(text, i);
      if StartsWith(text[i..], [Hash]) {
        assert text[i] == text[i..][0] == Hash;
      } else {
        assert text[i..][..3] == FullwidthHash;
        assert FullwidthHashAt(text, i);
      }
    }
  }

  /** `preg_match(endHashtagMatch, $after)`: `^(?:[#＃]|:\/\/)`, the hashSigns class
      anchored at the start, or `://`. */
  function EndHashtagMatch(after: Bytes): (r: bool)
    ensures r <==> HashSignAt(after, 0) || StartsWith(after, SchemeSeparator)
  {
    assert after[0..] == after;
    StartsWith(after, [Hash]) || StartsWith(after, FullwidthHash) || StartsWith(after, SchemeSeparator)
  }

  predicate IsInvalidPreceding(b: byte) {
    b == 0x2D || b == 0x5F || b == 0x2E || b == 0x2F
  }

  /** `preg_match(invalidUrlWithoutProtocolPrecedingChars, $before)`: `[-_.\/]$`, where
      `$` also matches just before a final newline: once a final newline is dropped,
      the last byte is one of `-_./`. */
  function EndsWithInvalidPreceding(before: Bytes): (r: bool)
    ensures var t := if before != [] && before[|before| - 1] == Newline then before[..|before| - 1] else before;
            r <==> t != [] && IsInvalidPreceding(t[|t| - 1])
  {
    (|before| >= 1 && IsInvalidPreceding(before[|before| - 1]))
    || (|before| >= 2 && before[|before| - 1] == Newline && IsInvalidPreceding(before[|before| - 2]))
  }

  function Lower(b: byte): byte {
    if 0x41 <= b <= 0x5A then b + 0x20 else b
  }

  /** s begins with the lower-case ASCII text p, ignoring case. */
  predicate StartsWithFolded(s: Bytes, p: Bytes) {
    |p| <= |s| && forall i :: 0 <= i < |p| ==> Lower(s[i]) == p[i]
  }

  predicate IsAlnum(b: byte) {
    0x30 <= Lower(b) <= 0x39 || 0x61 <= Lower(b) <= 0x7A
  }

  /** The length of the leading run of `[a-z0-9]` (case-insensitive) in s. */
  function AlnumRun(s: Bytes): (k: nat)
    ensures k <= |s|
    ensures forall i :: 0 <= i < k ==> IsAlnum(s[i])
    ensures k == |s| || !IsAlnum(s[k])
  {
    if s != [] && IsAlnum(s[0]) then 1 + AlnumRun(s[1..]) else 0
  }

  /** `preg_match(validTcoUrl, $url, $m)`: `^https?:\/\/t\.co\/[a-z0-9]+` with the i
      modifier; the match `$m[0]`, or None. The `+` is greedy, so the match takes the
      whole run of letters and digits. */
  function TcoPrefix(url: Bytes): (r: Option<Bytes>)
    ensures r.Some? ==> r.value <= url
    ensures r.Some? ==> (StartsWithFolded(url, HttpsTco) && r.value == url[..|HttpsTco| + AlnumRun(url[|HttpsTco|..])])
                        || (StartsWithFolded(url, HttpTco) && r.value == url[..|HttpTco| + AlnumRun(url[|HttpTco|..])])
    ensures r.Some? ==> |r.value| > |HttpTco| && (StartsWithFolded(url, HttpsTco) || StartsWithFolded(url, HttpTco))
    ensures r.Some? ==> |r.value| == |url| || !IsAlnum(url[|r.value|])
    ensures r.None? ==> !StartsWithFolded(url, HttpsTco) || AlnumRun(url[|HttpsTco|..]) == 0
    ensures r.None? ==> !StartsWithFolded(url, HttpTco) || AlnumRun(url[|HttpTco|..]) == 0
  {
    var n := if StartsWithFolded(url, HttpsTco) then |HttpsTco| else if StartsWithFolded(url, HttpTco) then |HttpTco| else 0;
    if n > 0 && AlnumRun(url[n..]) > 0 then
      var k := AlnumRun(url[n..]);
      assert n + k == |url| || url[n + k] == url[n..][k];
      Some(url[..n + k])
    else
      assert StartsWithFolded(url, HttpsTco) ==> Lower(url[4]) == 0x73;
      assert StartsWithFolded(url, HttpTco) ==> Lower(url[4]) == 0x3A;
      None
  }

  /** No URL starts with both schemes: the fifth byte is `s` in one and `:` in the other. */
  lemma TcoSchemesExclusive(url: Bytes)
    ensures !(StartsWithFolded(url, HttpsTco) && StartsWithFolded(url, HttpTco))
  {
    if StartsWithFolded(url, HttpsTco) {
      assert Lower(url[4]) == HttpsTco[4] != HttpTco[4];
    }
  }

  /** `substr($s, $start)` as PHP 8 defines it: a negative start counts from the end. */
  function Substr(s: Bytes, start: int): (r: Bytes)
    ensures 0 <= start <= |s| ==> |r| == |s| - start
    ensures start > |s| ==> r == []
    ensures start < 0 ==> |r| == if -start <= |s| then -start else |s|
  {
    if start >= 0 then (if start <= |s| then s[start..] else [])
    else if -start <= |s| then s[|s| + start..]
    else s
  }

  /** `substr` returns the tail of s whose length its contract gives. */
  lemma SubstrSuffix(s: Bytes, start: int)
    ensures |Substr(s, start)| <= |s| && Substr(s, start) == s[|s| - |Substr(s, start)|..]
  {
  }

  /** `str_replace($search, $replace, $subject)` with one search string: every occurrence,
      left to right and without overlaps; an empty search changes nothing. */
  function StrReplace(search: Bytes, replace: Bytes, subject: Bytes): Bytes
    decreases |subject|
  {
    if search == [] || |subject| < |search| then subject
    else if subject[..|search|] == search then replace + StrReplace(search, replace, subject[|search|..])
    else [subject[0]] + StrReplace(search, replace, subject[1..])
  }

  const WithoutProtocolKey: string := "extractUrlsWithoutProtocol"
  const UrlDefaults: Php.Options := map[WithoutProtocolKey := Php.Bool(true)]

  /** The inner loop over the ASCII-only domains ds of a protocol-less match that starts
      at startPosition: the entities it pushes and the final `$asciiEndPosition`. */
  function AsciiWalk(p: Pcre, domain: Bytes, startPosition: int, ds: seq<Bytes>): (seq<Entity>, int)
    decreases |ds|
  {
    if ds == [] then ([], 0)
    else
      var (pushed, endPos) := AsciiWalk(p, domain, startPosition, ds[..|ds| - 1]);
      var d := ds[|ds| - 1];
      var asciiStart := p.asciiStart(domain, endPos);
      var asciiEnd := asciiStart + |d|;
      var entity := Url(d, startPosition + asciiStart, startPosition + asciiEnd);
      (if p.invalidShortDomain(d) then pushed else pushed + [entity], asciiEnd)
  }

  /** The entities one `extractUrl` match contributes. */
  function MatchUrls(p: Pcre, withoutProtocol: bool, m: UrlMatch): seq<Entity> {
    var startPosition := m.whole.offset;
    if !Php.TruthyBytes(m.protocol) then
      if !withoutProtocol || EndsWithInvalidPreceding(m.before) then []
      else AsciiWalk(p, m.domain, startPosition, p.validAsciiDomain(m.domain)).0
    else
      match TcoPrefix(m.url)
      case Some(t) => [Url(t, startPosition, startPosition + |t|)]
      case None => [Url(m.url, startPosition, startPosition + |m.whole.text|)]
  }

  function UrlsOf(p: Pcre, withoutProtocol: bool, ms: seq<UrlMatch>): seq<Entity>
    decreases |ms|
  {
    if ms == [] then [] else UrlsOf(p, withoutProtocol, ms[..|ms| - 1]) + MatchUrls(p, withoutProtocol, ms[|ms| - 1])
  }

  /** What `extractUrlsWithIndices($text, $options)` returns. */
  function ExtractUrls(p: Pcre, text: Bytes, options: Php.Options): seq<Entity> {
    var withoutProtocol := Php.TruthyValue(Php.Extended(options, UrlDefaults)[WithoutProtocolKey]);
    if !Php.TruthyBytes(text) || (if withoutProtocol then Dot !in text else Colon !in text) then []
    else UrlsOf(p, withoutProtocol, p.extractUrl(text))
  }

  /** `extractUrlsWithIndices`. */
  method ExtractUrlsWithIndices(p: Pcre, text: Bytes, options: Php.Options) returns (urls: seq<Entity>)
    ensures urls == ExtractUrls(p, text, options)
  {
    var opts := Php.Extend(options, UrlDefaults);
    assert WithoutProtocolKey in UrlDefaults;
    var withoutProtocol := Php.TruthyValue(opts[WithoutProtocolKey]);
    if !Php.TruthyBytes(text) || (if withoutProtocol then Dot !in text else Colon !in text) {
      return [];
    }
    urls := PushUrlMatches(p, withoutProtocol, p.extractUrl(text));
  }

  /** The `foreach` over the `extractUrl` matches: `$urls` collects, match by match, the
      entities each one pushes. */
  method PushUrlMatches(p: Pcre, withoutProtocol: bool, matches: seq<UrlMatch>) returns (urls: seq<Entity>)
    ensures urls == UrlsOf(p, withoutProtocol, matches)
  {
    urls := [];
    var i := 0;
    while i < |matches|
      invariant 0 <= i <= |matches|
      invariant urls == UrlsOf(p, withoutProtocol, matches[..i])
    {
      assert matches[..i + 1][..i] == matches[..i];
      var found := HandleUrlMatch(p, withoutProtocol, matches[i]);
      urls := urls + found;
      i := i + 1;
    }
    assert matches[..i] == matches;
  }

  /** The body of the `foreach` over the `extractUrl` matches: the entities one match
      pushes onto `$urls` (none where the body ends in `continue`). */
  method HandleUrlMatch(p: Pcre, withoutProtocol: bool, m: UrlMatch) returns (pushed: seq<Entity>)
    ensures pushed == MatchUrls(p, withoutProtocol, m)
  {
    pushed := [];
    var before := m.before;
    var url := m.url;
    var protocol := m.protocol;
    var domain := m.domain;
    var path := m.path;
    var startPosition := m.whole.offset;
    var endPosition := startPosition + |m.whole.text|;
    if !Php.TruthyBytes(protocol) {
      if !withoutProtocol || EndsWithInvalidPreceding(before) {
        return;
      }
      var lastUrl: Option<Entity> := None;
      var lastUrlInvalidMatch := false;
      var asciiEndPosition := 0;
      var domainMatches := p.validAsciiDomain(domain);
      var j := 0;
      while j < |domainMatches|
        invariant 0 <= j <= |domainMatches|
        invariant pushed == AsciiWalk(p, domain, startPosition, domainMatches[..j]).0
        invariant asciiEndPosition == AsciiWalk(p, domain, startPosition, domainMatches[..j]).1
        invariant lastUrl.Some? ==> lastUrl.value.Url?
      {
        assert domainMatches[..j + 1][..j] == domainMatches[..j];
        var asciiDomain := domainMatches[j];
        var asciiStartPosition := p.asciiStart(domain, asciiEndPosition);
        asciiEndPosition := asciiStartPosition + |asciiDomain|;
        lastUrl := Some(Url(asciiDomain, startPosition + asciiStartPosition, startPosition + asciiEndPosition));
        if !p.invalidShortDomain(asciiDomain) {
          pushed := pushed + [lastUrl.value];
        }
        j := j + 1;
      }
      assert domainMatches[..j] == domainMatches;
      // `$lastUrl == null`: no ASCII-only domain, the whole match is skipped
      if lastUrl.None? {
        return;
      }
      if Php.TruthyBytes(path) {
        var extended := Url(StrReplace(domain, lastUrl.value.url, url), lastUrl.value.start, endPosition);
        if lastUrlInvalidMatch {
          pushed := pushed + [extended];
        }
      }
    } else {
      var tcoMatch := TcoPrefix(url);
      if tcoMatch.Some? {
        url := tcoMatch.value;
        endPosition := startPosition + |url|;
      }
      pushed := [Url(url, startPosition, endPosition)];
    }
  }

  const CheckUrlOverlapKey: string := "checkUrlOverlap"
  const HashtagDefaults: Php.Options := map[CheckUrlOverlapKey := Php.Bool(true)]

  /** The tag entities the loop over group 3 builds. */
  function TagsOf(text: Bytes, caps: seq<Capture>): seq<Entity>
    decreases |caps|
  {
    if caps == [] then []
    else
      var c := caps[|caps| - 1];
      if EndHashtagMatch(Substr(text, c.offset)) then TagsOf(text, caps[..|caps| - 1])
      else TagsOf(text, caps[..|caps| - 1]) + [Hashtag(c.text, c.offset, c.offset + |c.text|)]
  }

  /** `if ($entity['hashtag'])`: a URL entity has no such key, and a tag text is tested
      for PHP truth. */
  predicate IsKeptHashtag(e: Entity) {
    e.Hashtag? && Php.TruthyBytes(e.hashtag)
  }

  function OnlyHashtags(es: seq<Entity>): seq<Entity>
    decreases |es|
  {
    if es == [] then []
    else OnlyHashtags(es[..|es| - 1]) + (if IsKeptHashtag(es[|es| - 1]) then [es[|es| - 1]] else [])
  }

  /** What `extractHashtagsWithIndices($text, $options)` returns. */
  function ExtractHashtagEntities(p: Pcre, text: Bytes, options: Php.Options): seq<Entity> {
    var checkUrlOverlap := Php.TruthyValue(Php.Extended(options, HashtagDefaults)[CheckUrlOverlapKey]);
    if !Php.TruthyBytes(text) || !HasHashSign(text) then []
    else
      var tags := TagsOf(text, p.validHashtag(text));
      if checkUrlOverlap && |ExtractUrls(p, text, map[])| > 0 then
        OnlyHashtags(KeepNonOverlapping(SortByStart(tags + ExtractUrls(p, text, map[]))))
      else tags
  }

  /** `extractHashtagsWithIndices`. */
  method ExtractHashtagsWithIndices(p: Pcre, text: Bytes, options: Php.Options) returns (tags: seq<Entity>)
    ensures tags == ExtractHashtagEntities(p, text, options)
  {
    var opts := Php.Extend(options, HashtagDefaults);
    if !Php.TruthyBytes(text) || !HasHashSign(text) {
      return [];
    }
    tags := CollectTags(text, p.validHashtag(text));
    if Php.TruthyValue(opts[CheckUrlOverlapKey]) {
      var urls := ExtractUrlsWithIndices(p, text, map[]);
      if |urls| > 0 {
        var entities := tags + urls;
        entities := RemoveOverlappingEntities(entities);
        tags := PushBackHashtags(entities);
      }
    }
  }

  /** The `foreach` over group 3 of the `validHashtag` matches. */
  method CollectTags(text: Bytes, matches: seq<Capture>) returns (tags: seq<Entity>)
    ensures tags == TagsOf(text, matches)
  {
    tags := [];
    var i := 0;
    while i < |matches|
      invariant 0 <= i <= |matches|
      invariant tags == TagsOf(text, matches[..i])
    {
      assert matches[..i + 1][..i] == matches[..i];
      var m := matches[i];
      var startPosition := m.offset;
      var after := Substr(text, startPosition);
      if !EndHashtagMatch(after) {
        var hashText := m.text;
        var endPosition := startPosition + |hashText|;
        tags := tags + [Hashtag(hashText, startPosition, endPosition)];
      }
      i := i + 1;
    }
    assert matches[..i] == matches;
  }

  /** The "only push back hashtags" loop over the entities that survived overlap removal. */
  method PushBackHashtags(entities: seq<Entity>) returns (tags: seq<Entity>)
    ensures tags == OnlyHashtags(entities)
  {
    tags := [];
    var k := 0;
    while k < |entities|
      invariant 0 <= k <= |entities|
      invariant tags == OnlyHashtags(entities[..k])
    {
      assert entities[..k + 1][..k] == entities[..k];
      if IsKeptHashtag(entities[k]) {
        tags := tags + [entities[k]];
      }
      k := k + 1;
    }
    assert entities[..k] == entities;
  }

  /** `$hashtagWithIndices['hashtag']` of each entity, in order. A URL entity has no
      such key (PHP would read null); that cannot arise here, since every entity passed
      in is a hashtag, and the model puts an empty text in its place. */
  function HashtagTexts(es: seq<Entity>): (r: seq<Bytes>)
    ensures |r| == |es|
    ensures forall k :: 0 <= k < |es| && es[k].Hashtag? ==> r[k] == es[k].hashtag
    decreases |es|
  {
    if es == [] then []
    else HashtagTexts(es[..|es| - 1]) + [if es[|es| - 1].Hashtag? then es[|es| - 1].hashtag else []]
  }

  /** `extractHashtags`: the tag texts of `extractHashtagsWithIndices($text)`. */
  method ExtractHashtags(p: Pcre, text: Bytes) returns (hashtagsOnly: seq<Bytes>)
    ensures hashtagsOnly == HashtagTexts(ExtractHashtagEntities(p, text, map[]))
  {
    hashtagsOnly := [];
    var hashtagsWithIndices := ExtractHashtagsWithIndices(p, text, map[]);
    var i := 0;
    while i < |hashtagsWithIndices|
      invariant 0 <= i <= |hashtagsWithIndices|
      invariant hashtagsOnly == HashtagTexts(hashtagsWithIndices[..i])
    {
      assert hashtagsWithIndices[..i + 1][..i] == hashtagsWithIndices[..i];
      var e := hashtagsWithIndices[i];
      hashtagsOnly := hashtagsOnly + [if e.Hashtag? then e.hashtag else []];
      i := i + 1;
    }
    assert hashtagsWithIndices[..i] == hashtagsWithIndices;
  }

  // ---------------------------------------------------------------------------
  // Properties of URL extraction

  /** Without the option, URLs without a protocol are extracted: the default is on. */
  lemma ExtractUrlsDefault(p: Pcre, text: Bytes, options: Php.Options)
    requires WithoutProtocolKey !in options
    ensures ExtractUrls(p, text, options) == ExtractUrls(p, text, UrlDefaults)
  {
  }

  /** The early exits: an empty or "0" text, a text without any "." when protocol-less
      URLs are wanted, or without any ":" when they are not, has no URLs. */
  lemma ExtractUrlsEarlyExit(p: Pcre, text: Bytes, withoutProtocol: bool)
    requires !Php.TruthyBytes(text) || (if withoutProtocol then Dot !in text else Colon !in text)
    ensures ExtractUrls(p, text, map[WithoutProtocolKey := Php.Bool(withoutProtocol)]) == []
  {
  }

  /** The URLs of a list of ASCII-only domains: those the short-domain check lets through. */
  function ValidDomains(p: Pcre, ds: seq<Bytes>): seq<Bytes>
    decreases |ds|
  {
    if ds == [] then []
    else ValidDomains(p, ds[..|ds| - 1]) + (if p.invalidShortDomain(ds[|ds| - 1]) then [] else [ds[|ds| - 1]])
  }

  function UrlTexts(es: seq<Entity>): seq<Bytes>
    decreases |es|
  {
    if es == [] then [] else UrlTexts(es[..|es| - 1]) + [if es[|es| - 1].Url? then es[|es| - 1].url else []]
  }

  /** The inner walk pushes one URL per valid ASCII-only domain, in order, each spanning
      exactly its domain's bytes, and `$asciiEndPosition` ends after the last domain.
      Each domain is looked up from where the previous one ended, and its URL starts at
      the match's start plus the offset found. */
  lemma {:induction false} AsciiWalkDomains(p: Pcre, domain: Bytes, startPosition: int, ds: seq<Bytes>)
    ensures var (pushed, endPos) := AsciiWalk(p, domain, startPosition, ds);
            UrlTexts(pushed) == ValidDomains(p, ds)
            && (forall e :: e in pushed ==> e.Url? && e.end - e.start == |e.url|)
            && (ds != [] ==> endPos == p.asciiStart(domain, AsciiWalk(p, domain, startPosition, ds[..|ds| - 1]).1) + |ds[|ds| - 1]|)
    ensures ds != [] ==>
              var (before, prevEnd) := AsciiWalk(p, domain, startPosition, ds[..|ds| - 1]);
              var pushed := AsciiWalk(p, domain, startPosition, ds).0;
              var a := p.asciiStart(domain, prevEnd);
              && before <= pushed
              && (p.invalidShortDomain(ds[|ds| - 1]) ==> pushed == before)
              && (!p.invalidShortDomain(ds[|ds| - 1]) ==>
                    |pushed| == |before| + 1
                    && pushed[|before|] == Url(ds[|ds| - 1], startPosition + a, startPosition + a + |ds[|ds| - 1]|))
    decreases |ds|
  {
    if ds != [] {
      var pre := ds[..|ds| - 1];
      AsciiWalkDomains(p, domain, startPosition, pre);
      var (pushed, _) := AsciiWalk(p, domain, startPosition, pre);
      var (all, _) := AsciiWalk(p, domain, startPosition, ds);
      if !p.invalidShortDomain(ds[|ds| - 1]) {
        assert all[..|all| - 1] == pushed;
      }
    }
  }

  /** A match without a protocol yields only the valid ASCII-only domains found in its
      domain (the path branch never pushes), and nothing when protocol-less URLs are off
      or the preceding character is one of `-_./`. */
  lemma {:induction false} ProtocolLessMatch(p: Pcre, withoutProtocol: bool, m: UrlMatch)
    requires !Php.TruthyBytes(m.protocol)
    ensures !withoutProtocol || EndsWithInvalidPreceding(m.before) ==> MatchUrls(p, withoutProtocol, m) == []
    ensures withoutProtocol && !EndsWithInvalidPreceding(m.before) ==>
              UrlTexts(MatchUrls(p, withoutProtocol, m)) == ValidDomains(p, p.validAsciiDomain(m.domain))
    ensures withoutProtocol && !EndsWithInvalidPreceding(m.before) ==>
              MatchUrls(p, withoutProtocol, m) == AsciiWalk(p, m.domain, m.whole.offset, p.validAsciiDomain(m.domain)).0
    ensures forall e :: e in MatchUrls(p, withoutProtocol, m) ==> e.Url? && e.end - e.start == |e.url|
  {
    AsciiWalkDomains(p, m.domain, m.whole.offset, p.validAsciiDomain(m.domain));
  }

  /** A match with a protocol yields exactly one URL, starting where the whole match starts:
      a t.co link is cut after its alphanumeric path, anything else keeps the URL group and
      the span of the whole match, preceding character included. */
  lemma ProtocolMatch(p: Pcre, withoutProtocol: bool, m: UrlMatch)
    requires Php.TruthyBytes(m.protocol)
    ensures var r := MatchUrls(p, withoutProtocol, m);
            |r| == 1 && r[0].Url? && r[0].start == m.whole.offset && r[0].url <= m.url
    ensures var r := MatchUrls(p, withoutProtocol, m);
            (StartsWithFolded(m.url, HttpsTco) && AlnumRun(m.url[|HttpsTco|..]) > 0) || (StartsWithFolded(m.url, HttpTco) && AlnumRun(m.url[|HttpTco|..]) > 0)
            ==> r[0].end - r[0].start == |r[0].url| < |m.url| + 1 && (|r[0].url| == |m.url| || !IsAlnum(m.url[|r[0].url|]))
    ensures var r := MatchUrls(p, withoutProtocol, m);
            StartsWithFolded(m.url, HttpsTco) && AlnumRun(m.url[|HttpsTco|..]) > 0
            ==> r[0].url == m.url[..|HttpsTco| + AlnumRun(m.url[|HttpsTco|..])]
    ensures var r := MatchUrls(p, withoutProtocol, m);
            StartsWithFolded(m.url, HttpTco) && AlnumRun(m.url[|HttpTco|..]) > 0
            ==> r[0].url == m.url[..|HttpTco| + AlnumRun(m.url[|HttpTco|..])]
    ensures var r := MatchUrls(p, withoutProtocol, m);
            m.whole.text == m.before + m.url && TcoPrefix(m.url).None? ==>
              r[0].url == m.url && r[0].end - r[0].start == |m.before| + |m.url|
  {
    TcoSchemesExclusive(m.url);
  }

  /** Every URL entity is a URL whose end is not before its start. */
  lemma {:induction false} UrlsWellFormed(p: Pcre, withoutProtocol: bool, ms: seq<UrlMatch>)
    ensures forall e :: e in UrlsOf(p, withoutProtocol, ms) ==> e.Url? && e.start <= e.end
    decreases |ms|
  {
    if ms != [] {
      UrlsWellFormed(p, withoutProtocol, ms[..|ms| - 1]);
      var m := ms[|ms| - 1];
      if Php.TruthyBytes(m.protocol) {
        ProtocolMatch(p, withoutProtocol, m);
      } else {
        ProtocolLessMatch(p, withoutProtocol, m);
      }
    }
  }

  lemma {:induction false} ExtractUrlsWellFormed(p: Pcre, text: Bytes, options: Php.Options)
    ensures forall e :: e in ExtractUrls(p, text, options) ==> e.Url? && e.start <= e.end
  {
    var withoutProtocol := Php.TruthyValue(Php.Extended(options, UrlDefaults)[WithoutProtocolKey]);
    UrlsWellFormed(p, withoutProtocol, p.extractUrl(text));
  }

  // ---------------------------------------------------------------------------
  // Properties of hashtag extraction

  /** The early exit: an empty or "0" text, or one without `#` or `＃`, has no hashtags. */
  lemma HashtagsEarlyExit(p: Pcre, text: Bytes, options: Php.Options)
    requires !Php.TruthyBytes(text) || !HasHashSign(text)
    ensures ExtractHashtagEntities(p, text, options) == []
  {
  }

  /** A capture PCRE reports for the subject text: its bytes are the text's at its offset. */
  predicate Consistent(text: Bytes, c: Capture) {
    0 <= c.offset && c.offset + |c.text| <= |text| && text[c.offset..c.offset + |c.text|] == c.text
  }

  /** Every tag is a hashtag entity built from one of the captures, spanning its text. */
  lemma {:induction false} TagsFromCaptures(text: Bytes, caps: seq<Capture>)
    ensures forall e :: e in TagsOf(text, caps) ==>
              e.Hashtag? && e.end == e.start + |e.hashtag| && Capture(e.hashtag, e.start) in caps
    decreases |caps|
  {
    if caps != [] {
      TagsFromCaptures(text, caps[..|caps| - 1]);
      forall e | e in TagsOf(text, caps[..|caps| - 1]) ensures Capture(e.hashtag, e.start) in caps {
        assert Capture(e.hashtag, e.start) in caps[..|caps| - 1];
      }
    }
  }

  /** With captures consistent with the text, each tag's offsets select exactly its text. */
  lemma {:induction false} TagsMatchText(text: Bytes, caps: seq<Capture>)
    requires forall c :: c in caps ==> Consistent(text, c)
    ensures forall e :: e in TagsOf(text, caps) ==>
              e.Hashtag? && 0 <= e.start <= e.end <= |text| && text[e.start..e.end] == e.hashtag
  {
    TagsFromCaptures(text, caps);
    forall e | e in TagsOf(text, caps)
      ensures e.Hashtag? && 0 <= e.start <= e.end <= |text| && text[e.start..e.end] == e.hashtag
    {
      assert Consistent(text, Capture(e.hashtag, e.start));
    }
  }

  /** A tag body as `validHashtag` captures it: it does not begin with a hash sign or a
      colon, and a leading 0xEF byte opens a whole three-byte character other than ＃. */
  predicate TagBody(t: Bytes) {
    |t| >= 1 && t[0] != Hash && t[0] != Colon
    && (t[0] == 0xEF ==> |t| >= 3 && t[..3] != FullwidthHash)
  }

  /** The `endHashtagMatch` test is made on the text from the start of the tag itself, not
      from its end, so for a consistent capture of a tag body it never fires. */
  lemma {:induction false} EndHashtagMatchNeverFires(text: Bytes, c: Capture)
    requires Consistent(text, c) && TagBody(c.text)
    ensures !EndHashtagMatch(Substr(text, c.offset))
  {
    var after := Substr(text, c.offset);
    assert after[..|c.text|] == c.text;
    assert after[0] == c.text[0];
    if |c.text| >= 3 {
      assert after[..3] == c.text[..3];
    }
  }

  /** Every capture is consistent with the text and captures a tag body. */
  predicate TagCaptures(text: Bytes, caps: seq<Capture>) {
    forall k :: 0 <= k < |caps| ==> Consistent(text, caps[k]) && TagBody(caps[k].text)
  }

  /** The tag a capture becomes. */
  function TagOf(c: Capture): Entity {
    Hashtag(c.text, c.offset, c.offset + |c.text|)
  }

  lemma {:induction false} TagsOfLast(text: Bytes, caps: seq<Capture>)
    requires caps != [] && !EndHashtagMatch(Substr(text, caps[|caps| - 1].offset))
    ensures TagsOf(text, caps) == TagsOf(text, caps[..|caps| - 1]) + [TagOf(caps[|caps| - 1])]
  {
  }

  /** The last of a list of tag captures is not dropped, and the rest are tag captures. */
  lemma {:induction false} TagCapturesLast(text: Bytes, caps: seq<Capture>)
    requires caps != [] && TagCaptures(text, caps)
    ensures !EndHashtagMatch(Substr(text, caps[|caps| - 1].offset))
    ensures TagCaptures(text, caps[..|caps| - 1])
  {
    EndHashtagMatchNeverFires(text, caps[|caps| - 1]);
    var pre := caps[..|caps| - 1];
    forall k | 0 <= k < |pre| ensures Consistent(text, pre[k]) && TagBody(pre[k].text) {
      assert pre[k] == caps[k];
    }
  }

  lemma {:induction false} TagsSnoc(tags: seq<Entity>, caps: seq<Capture>, c: Capture)
    requires |tags| == |caps| && forall k :: 0 <= k < |caps| ==> tags[k] == TagOf(caps[k])
    ensures var t, cs := tags + [TagOf(c)], caps + [c];
            |t| == |cs| && forall k :: 0 <= k < |cs| ==> t[k] == TagOf(cs[k])
  {
  }

  /** Consequently every captured tag body becomes a tag, in order and with its offsets. */
  lemma {:induction false} AllCapturesBecomeTags(text: Bytes, caps: seq<Capture>)
    requires TagCaptures(text, caps)
    ensures |TagsOf(text, caps)| == |caps|
    ensures forall k :: 0 <= k < |caps| ==> TagsOf(text, caps)[k] == TagOf(caps[k])
    decreases |caps|
  {
    if caps != [] {
      var pre, c := caps[..|caps| - 1], caps[|caps| - 1];
      assert pre + [c] == caps;
      TagCapturesLast(text, caps);
      AllCapturesBecomeTags(text, pre);
      TagsOfLast(text, caps);
      TagsSnoc(TagsOf(text, pre), pre, c);
    }
  }

  /** The pushed-back list keeps exactly the entities with a truthy tag, in order. */
  lemma {:induction false} OnlyHashtagsSubsequence(es: seq<Entity>)
    ensures Subsequence(OnlyHashtags(es), es)
    ensures forall e :: e in OnlyHashtags(es) ==> IsKeptHashtag(e)
    ensures forall e :: e in es && IsKeptHashtag(e) ==> e in OnlyHashtags(es)
    decreases |es|
  {
    if es == [] {
      assert Subsequence([], []);
    } else {
      var pre := es[..|es| - 1];
      var x := es[|es| - 1];
      OnlyHashtagsSubsequence(pre);
      SubsequenceSnoc(OnlyHashtags(pre), pre, x);
      assert pre + [x] == es;
      if IsKeptHashtag(x) {
        assert OnlyHashtags(es) == OnlyHashtags(pre) + [x];
      } else {
        assert OnlyHashtags(es) == OnlyHashtags(pre) + [];
        assert OnlyHashtags(pre) + [] == OnlyHashtags(pre);
      }
      forall e | e in es && IsKeptHashtag(e) ensures e in OnlyHashtags(es) {
        if e != x {
          assert e in pre;
        }
      }
    }
  }

  /** Overlap removal on entities whose ends are not before their starts keeps a list
      sorted by start and pairwise disjoint, drawn from the input. */
  lemma {:induction false} KeptDisjoint(s: seq<Entity>)
    requires forall e :: e in s ==> e.start <= e.end
    ensures var kept := KeepNonOverlapping(SortByStart(s));
            SortedByStart(kept) && Disjoint(kept) && multiset(kept) <= multiset(s)
  {
    var sorted := SortByStart(s);
    var kept := KeepNonOverlapping(sorted);
    KeepIsSubsequence(sorted);
    KeepIsChained(sorted);
    forall k | 0 <= k < |kept| ensures kept[k].start <= kept[k].end {
      assert kept[k] in multiset(s);
    }
    ChainedDisjoint(kept);
  }

  /** The push-back on a sorted, disjoint list drawn from tags and URLs keeps it sorted
      and disjoint and keeps only truthy tags. */
  lemma {:induction false} PushBackResult(kept: seq<Entity>, tags: seq<Entity>, urls: seq<Entity>)
    requires SortedByStart(kept) && Disjoint(kept) && multiset(kept) <= multiset(tags + urls)
    requires forall e :: e in urls ==> e.Url?
    ensures var r := OnlyHashtags(kept);
            SortedByStart(r) && Disjoint(r) && forall e :: e in r ==> IsKeptHashtag(e) && e in tags
  {
    var r := OnlyHashtags(kept);
    OnlyHashtagsSubsequence(kept);
    SubsequenceSorted(r, kept);
    SubsequenceDisjoint(r, kept);
    SubsequenceMembers(r, kept);
    forall e | e in r ensures e in tags {
      assert e in multiset(r);
      assert e in multiset(kept);
      assert e in multiset(tags + urls);
      assert e in tags + urls;
      assert e.Hashtag?;
    }
  }

  /** Overlap removal followed by the push-back, on tag entities and URL entities whose
      ends are not before their starts: the tags kept are sorted by start, pairwise
      disjoint, truthy, and each one of the tags. */
  lemma {:induction false} OverlapResult(tags: seq<Entity>, urls: seq<Entity>)
    requires forall e :: e in tags ==> e.Hashtag? && e.start <= e.end
    requires forall e :: e in urls ==> e.Url? && e.start <= e.end
    ensures var r := OnlyHashtags(KeepNonOverlapping(SortByStart(tags + urls)));
            SortedByStart(r) && Disjoint(r) && forall e :: e in r ==> IsKeptHashtag(e) && e in tags
  {
    KeptDisjoint(tags + urls);
    PushBackResult(KeepNonOverlapping(SortByStart(tags + urls)), tags, urls);
  }

  /** With the URL overlap check in effect and some URL found, the tags returned are sorted
      by start, pairwise disjoint, truthy, and each one of the tags found in the text. */
  lemma {:induction false} OverlapCheckedTags(p: Pcre, text: Bytes)
    requires Php.TruthyBytes(text) && HasHashSign(text)
    requires |ExtractUrls(p, text, map[])| > 0
    ensures var r := ExtractHashtagEntities(p, text, map[]);
            SortedByStart(r) && Disjoint(r)
            && forall e :: e in r ==> IsKeptHashtag(e) && e in TagsOf(text, p.validHashtag(text))
  {
    var tags := TagsOf(text, p.validHashtag(text));
    var urls := ExtractUrls(p, text, map[]);
    assert Php.Extended(map[], HashtagDefaults)[CheckUrlOverlapKey] == Php.Bool(true);
    assert ExtractHashtagEntities(p, text, map[]) == OnlyHashtags(KeepNonOverlapping(SortByStart(tags + urls)));
    TagsFromCaptures(text, p.validHashtag(text));
    ExtractUrlsWellFormed(p, text, map[]);
    OverlapResult(tags, urls);
  }

  /** Whatever the options, every entity returned is one of the tags found in the text. */
  lemma {:induction false} HashtagResultsAreTags(p: Pcre, text: Bytes, options: Php.Options)
    ensures forall e :: e in ExtractHashtagEntities(p, text, options) ==>
              e.Hashtag? && e.end == e.start + |e.hashtag| && e in TagsOf(text, p.validHashtag(text))
  {
    var tags := TagsOf(text, p.validHashtag(text));
    var urls := ExtractUrls(p, text, map[]);
    TagsFromCaptures(text, p.validHashtag(text));
    ExtractUrlsWellFormed(p, text, map[]);
    OverlapResult(tags, urls);
  }

  /** Without the overlap check, every tag found in the text is returned, in order. */
  lemma UncheckedTags(p: Pcre, text: Bytes, options: Php.Options)
    requires Php.TruthyBytes(text) && HasHashSign(text)
    requires CheckUrlOverlapKey in options && !Php.TruthyValue(options[CheckUrlOverlapKey])
    ensures ExtractHashtagEntities(p, text, options) == TagsOf(text, p.validHashtag(text))
  {
  }

  /** `extractHashtags` returns one text per entity, each the entity's tag. */
  lemma {:induction false} ExtractHashtagsTexts(p: Pcre, text: Bytes)
    ensures var es := ExtractHashtagEntities(p, text, map[]);
            |HashtagTexts(es)| == |es|
            && forall k :: 0 <= k < |es| ==>
                 es[k] in TagsOf(text, p.validHashtag(text)) && es[k].Hashtag? && HashtagTexts(es)[k] == es[k].hashtag
  {
    HashtagResultsAreTags(p, text, map[]);
    TextsOfTags(ExtractHashtagEntities(p, text, map[]), TagsOf(text, p.validHashtag(text)));
  }

  lemma {:induction false} TextsOfTags(es: seq<Entity>, tags: seq<Entity>)
    requires forall e :: e in es ==> e.Hashtag? && e in tags
    ensures |HashtagTexts(es)| == |es|
    ensures forall k :: 0 <= k < |es| ==> HashtagTexts(es)[k] == es[k].hashtag && es[k] in tags
  {
    forall k | 0 <= k < |es| ensures HashtagTexts(es)[k] == es[k].hashtag && es[k] in tags {
      assert es[k] in es;
    }
  }
}
