/**
  What the resolution step of `I18n.Serve` guarantees, stated over `Resolve`:
  the priority of the sources, the quirks of the `Accept-Language` scan, the
  cookie write-back and the value left in the request's store.
 */
module I18nProperties {
  import opened GoStrings
  import opened I18n

  /** A request with nothing stored, no URL parameter and no cookie: only the header is left. */
  predicate HeaderOnly(req: Request)
  {
    req.stored == "" && req.urlParam == "" && req.cookie == ""
  }

  // ---------------------------------------------------------------------------
  // Priority of the sources

  /**
    A language already in the store is not kept: it is overwritten with the
    configured default, and no cookie is written.
   */
  lemma StoredValueYieldsDefault(cfg: Config, req: Request, tags: seq<string>)
    requires req.stored != ""
    ensures Resolve(cfg, req, tags) == Outcome(cfg.defaultLanguage, None, cfg.defaultLanguage)
  {
  }

  /** With the configuration `New` builds, a stored language always becomes "en-US". */
  lemma NewConfigStoredYieldsEnUS(req: Request, tags: seq<string>)
    requires req.stored != ""
    ensures Resolve(New(), req, tags) == Outcome("en-US", None, "en-US")
  {
  }

  /** The configuration plays no part once the store is empty: `Default` is never a fallback. */
  lemma ConfigIrrelevantWhenStoreEmpty(cfg1: Config, cfg2: Config, req: Request, tags: seq<string>)
    requires req.stored == ""
    ensures Resolve(cfg1, req, tags) == Resolve(cfg2, req, tags)
  {
  }

  /** A URL parameter wins over cookie and header, and is written to the cookie. */
  lemma UrlParamWins(cfg: Config, req: Request, tags: seq<string>)
    requires req.stored == "" && req.urlParam != ""
    ensures Resolve(cfg, req, tags) == Outcome(req.urlParam, Some(req.urlParam), req.urlParam)
  {
  }

  /** Without a URL parameter a cookie wins over the header, and is not written again. */
  lemma CookieWins(cfg: Config, req: Request, tags: seq<string>)
    requires req.stored == "" && req.urlParam == "" && req.cookie != ""
    ensures Resolve(cfg, req, tags) == Outcome(req.cookie, None, req.cookie)
  {
  }

  // ---------------------------------------------------------------------------
  // The Accept-Language scan

  /**
    From the header alone, the result is the language range of the LAST
    entry that matches some tag (not the first), and it is written to the cookie.
   */
  lemma HeaderLastMatchWins(cfg: Config, req: Request, tags: seq<string>, i: int)
    requires HeaderOnly(req)
    requires IsLastMatch(Split(req.acceptLanguage, ','), tags, i)
    ensures var r := LanguageRange(Split(req.acceptLanguage, ',')[i]);
            Resolve(cfg, req, tags) == Outcome(r, Some(r), r)
  {
    var entries := Split(req.acceptLanguage, ',');
    if |req.acceptLanguage| > 0 {
      ScanEntriesLastMatch(entries, tags, "", i);
    } else {
      assert entries == [""];
    }
  }

  /**
    With no source at all, or a header none of whose entries matches, the
    result is "" rather than the configured default, and "" is written to the cookie.
   */
  lemma NoSourceYieldsEmpty(cfg: Config, req: Request, tags: seq<string>)
    requires HeaderOnly(req)
    requires req.acceptLanguage == "" || NoMatch(Split(req.acceptLanguage, ','), tags)
    ensures Resolve(cfg, req, tags) == Outcome("", Some(""), "")
  {
    if req.acceptLanguage != "" {
      ScanEntriesNoMatch(Split(req.acceptLanguage, ','), tags, "");
    }
  }

  /**
    The `len(langHeader) > 0` guard changes nothing: scanning the empty header
    (one empty entry) also leaves the empty starting value.
   */
  lemma EmptyHeaderScanIsEmpty(tags: seq<string>)
    ensures ScanEntries(Split("", ','), tags, "") == ""
  {
    assert Split("", ',') == [""];
  }

  /**
    A header-derived language is "" or the raw language range of one header
    entry; it never contains `,` or `;`.
   */
  lemma HeaderResultIsEntryRange(cfg: Config, req: Request, tags: seq<string>)
    requires HeaderOnly(req)
    ensures var r := Resolve(cfg, req, tags).language;
            var entries := Split(req.acceptLanguage, ',');
            && (r == "" || exists i :: 0 <= i < |entries| && r == LanguageRange(entries[i]))
            && ',' !in r && ';' !in r
  {
    var entries := Split(req.acceptLanguage, ',');
    if NoMatch(entries, tags) {
      NoSourceYieldsEmpty(cfg, req, tags);
    } else {
      LastMatchExists(entries, tags);
      var i :| IsLastMatch(entries, tags, i);
      HeaderLastMatchWins(cfg, req, tags, i);
      assert LanguageRange(entries[i]) <= entries[i];
    }
  }

  /** Whether an entry matches depends only on which tags there are. */
  lemma EntryMatchesSameTags(entry: string, tags1: seq<string>, tags2: seq<string>)
    requires forall t :: t in tags1 <==> t in tags2
    ensures EntryMatches(entry, tags1) <==> EntryMatches(entry, tags2)
  {
    var code := PrimaryCode(LanguageRange(entry));
    AnyTagContainsSome(tags1, code);
    AnyTagContainsSome(tags2, code);
    if EntryMatches(entry, tags1) {
      var k :| 0 <= k < |tags1| && Contains(tags1[k], code);
      assert tags1[k] in tags2;
      var k2 :| 0 <= k2 < |tags2| && tags2[k2] == tags1[k];
      assert Contains(tags2[k2], code);
    }
    if EntryMatches(entry, tags2) {
      var k :| 0 <= k < |tags2| && Contains(tags2[k], code);
      assert tags2[k] in tags1;
      var k1 :| 0 <= k1 < |tags1| && tags1[k1] == tags2[k];
      assert Contains(tags1[k1], code);
    }
  }

  /** The scan depends only on which tags there are, not on their order or repetition. */
  lemma {:induction false} ScanEntriesSameTags(entries: seq<string>, tags1: seq<string>, tags2: seq<string>, language: string)
    requires forall t :: t in tags1 <==> t in tags2
    ensures ScanEntries(entries, tags1, language) == ScanEntries(entries, tags2, language)
    decreases |entries|
  {
    if |entries| > 0 {
      EntryMatchesSameTags(entries[0], tags1, tags2);
      var next := if EntryMatches(entries[0], tags1) then LanguageRange(entries[0]) else language;
      ScanEntriesSameTags(entries[1..], tags1, tags2, next);
    }
  }

  /** Reordering the bundle's tags never changes the outcome. */
  lemma TagOrderIrrelevant(cfg: Config, req: Request, tags1: seq<string>, tags2: seq<string>)
    requires forall t :: t in tags1 <==> t in tags2
    ensures Resolve(cfg, req, tags1) == Resolve(cfg, req, tags2)
  {
    ScanEntriesSameTags(Split(req.acceptLanguage, ','), tags1, tags2, req.cookie);
  }

  /**
    Entries are not trimmed: an entry that starts with a space (as every entry
    after ", " does) matches only a tag that itself contains a space.
   */
  lemma LeadingSpaceNeverMatches(entry: string, tags: seq<string>)
    requires |entry| > 0 && entry[0] == ' '
    requires forall k :: 0 <= k < |tags| ==> ' ' !in tags[k]
    ensures !EntryMatches(entry, tags)
  {
    var code := PrimaryCode(LanguageRange(entry));
    assert |LanguageRange(entry)| > 0 && LanguageRange(entry)[0] == ' ';
    assert |code| > 0 && code[0] == ' ';
    forall k | 0 <= k < |tags|
      ensures !Contains(tags[k], code)
    {
      if Contains(tags[k], code) {
        ContainsCharOf(tags[k], code, 0);
      }
    }
    AnyTagContainsSome(tags, code);
  }

  /** An entry with an empty language range matches as soon as there is any tag. */
  lemma EmptyRangeMatchesAnyTag(entry: string, tags: seq<string>)
    requires LanguageRange(entry) == "" && |tags| > 0
    ensures EntryMatches(entry, tags)
  {
    assert PrimaryCode("") == "";
    ContainsEmpty(tags[0]);
  }

  /**
    A trailing comma leaves an empty last entry, which matches any tag, so
    the header yields "" whatever came before it.
   */
  lemma TrailingCommaYieldsEmpty(cfg: Config, req: Request, tags: seq<string>, front: string)
    requires HeaderOnly(req)
    requires req.acceptLanguage == front + [',']
    ensures Resolve(cfg, req, tags) == Outcome("", Some(""), "")
  {
    var entries := Split(req.acceptLanguage, ',');
    if |tags| > 0 {
      SplitTrailingSeparator(front, ',');
      var n := |entries| - 1;
      assert entries[n] == "";
      assert LanguageRange("") == "";
      EmptyRangeMatchesAnyTag("", tags);
      assert IsLastMatch(entries, tags, n);
      HeaderLastMatchWins(cfg, req, tags, n);
    } else {
      assert NoMatch(entries, tags);
      NoSourceYieldsEmpty(cfg, req, tags);
    }
  }

  // ---------------------------------------------------------------------------
  // Cookie write-back

  /**
    A follow-up request carrying the non-empty language the first request
    wrote to the cookie, and no URL parameter, resolves to the same language
    with no new cookie write, whatever its header and whatever the tags.
   */
  lemma CookieReplay(cfg: Config, first: Request, tags: seq<string>, next: Request, nextTags: seq<string>)
    requires Resolve(cfg, first, tags).cookieWrite.Some?
    requires Resolve(cfg, first, tags).language != ""
    requires next.stored == "" && next.urlParam == ""
    requires next.cookie == Resolve(cfg, first, tags).cookieWrite.value
    ensures Resolve(cfg, next, nextTags) == Outcome(Resolve(cfg, first, tags).language, None, Resolve(cfg, first, tags).language)
  {
  }

  /** The two-entry header "a,b" splits into its two entries. */
  lemma SplitTwoEntries(a: string, b: string)
    requires ',' !in a && ',' !in b
    ensures Split(a + [','] + b, ',') == [a, b]
  {
    SplitJoin([a, b], ',');
    assert [a, b][1..] == [b];
  }

  /**
    A two-entry header: the second entry decides when it matches, the first
    only when the second does not.
   */
  lemma TwoEntryHeader(cfg: Config, a: string, b: string, tags: seq<string>)
    requires ',' !in a && ',' !in b
    ensures Resolve(cfg, Request("", "", "", a + [','] + b), tags).language
         == if EntryMatches(b, tags) then LanguageRange(b)
            else if EntryMatches(a, tags) then LanguageRange(a)
            else ""
  {
    var req := Request("", "", "", a + [','] + b);
    SplitTwoEntries(a, b);
    var entries := [a, b];
    if EntryMatches(b, tags) {
      assert IsLastMatch(entries, tags, 1);
      HeaderLastMatchWins(cfg, req, tags, 1);
    } else if EntryMatches(a, tags) {
      assert IsLastMatch(entries, tags, 0);
      HeaderLastMatchWins(cfg, req, tags, 0);
    } else {
      assert NoMatch(entries, tags);
      NoSourceYieldsEmpty(cfg, req, tags);
    }
  }

  /** A header of one entry that matches decides the outcome with that entry's range. */
  lemma SingleEntryHeader(cfg: Config, req: Request, tags: seq<string>)
    requires HeaderOnly(req) && ',' !in req.acceptLanguage
    requires EntryMatches(req.acceptLanguage, tags)
    ensures var r := LanguageRange(req.acceptLanguage);
            Resolve(cfg, req, tags) == Outcome(r, Some(r), r)
  {
    SplitFree(req.acceptLanguage, ',');
    assert IsLastMatch([req.acceptLanguage], tags, 0);
    HeaderLastMatchWins(cfg, req, tags, 0);
  }

  // ---------------------------------------------------------------------------
  // Worked examples

  /** An entry without `;` is its own language range, and its code is the part before `-`. */
  lemma PlainEntryCode(entry: string, code: string)
    requires ';' !in entry
    requires code <= entry && '-' !in code
    requires |code| == |entry| || entry[|code|] == '-'
    ensures LanguageRange(entry) == entry
    ensures PrimaryCode(LanguageRange(entry)) == code
  {
    FirstFieldUnique(entry, ';', entry);
    FirstFieldUnique(entry, '-', code);
  }

  /** An entry matches through tag `k`. */
  lemma MatchesThrough(entry: string, tags: seq<string>, k: nat)
    requires k < |tags| && Contains(tags[k], PrimaryCode(LanguageRange(entry)))
    ensures EntryMatches(entry, tags)
  {
    AnyTagContainsSome(tags, PrimaryCode(LanguageRange(entry)));
  }

  /** "fr-CA" matches "fr-FR" through its code "fr", is its own range, and is not a tag. */
  lemma FrCaMatches(entry: string, tags: seq<string>)
    requires entry == "fr-CA" && tags == ["en-US", "fr-FR"]
    ensures EntryMatches(entry, tags) && LanguageRange(entry) == entry && ',' !in entry
    ensures entry !in tags
  {
    PlainEntryCode(entry, "fr");
    assert Contains("fr-FR", "fr");
    MatchesThrough(entry, tags, 1);
  }

  /** "en-GB" matches "en-US" through its code "en", and is its own range. */
  lemma EnGbMatches(entry: string, tags: seq<string>)
    requires entry == "en-GB" && tags == ["en-US", "fr-FR"]
    ensures EntryMatches(entry, tags) && LanguageRange(entry) == entry && ',' !in entry
  {
    PlainEntryCode(entry, "en");
    assert Contains("en-US", "en");
    MatchesThrough(entry, tags, 0);
  }

  /** A two-entry header whose second entry matches resolves to that entry's range. */
  lemma LaterMatchWins(cfg: Config, a: string, b: string, tags: seq<string>)
    requires ',' !in a && ',' !in b && EntryMatches(b, tags)
    ensures Resolve(cfg, Request("", "", "", a + [','] + b), tags).language == LanguageRange(b)
  {
    TwoEntryHeader(cfg, a, b, tags);
  }

  // The examples take their literals as parameters pinned by a requires, so
  // that the solver does not unfold `Split` on a literal header.

  /**
    Tags "en-US" and "fr-FR", header "fr-CA": the entry matches through its
    code "fr", and the result is the entry's own text "fr-CA", which is not
    one of the tags, rather than the tag "fr-FR" it matched.
   */
  lemma RegionKeptExample(cfg: Config, header: string, tags: seq<string>)
    requires header == "fr-CA" && tags == ["en-US", "fr-FR"]
    ensures Resolve(cfg, Request("", "", "", header), tags) == Outcome("fr-CA", Some("fr-CA"), "fr-CA")
    ensures header !in tags
  {
    FrCaMatches(header, tags);
    SingleEntryHeader(cfg, Request("", "", "", header), tags);
  }

  /**
    Tags "en-US" and "fr-FR", header "fr-CA,en-GB": both entries match, and
    the later one, "en-GB", is the result rather than the first match.
   */
  lemma LaterEntryWinsExample(cfg: Config, a: string, b: string, tags: seq<string>)
    requires a == "fr-CA" && b == "en-GB" && tags == ["en-US", "fr-FR"]
    ensures EntryMatches(a, tags) && EntryMatches(b, tags)
    ensures Resolve(cfg, Request("", "", "", a + [','] + b), tags).language == "en-GB"
  {
    FrCaMatches(a, tags);
    EnGbMatches(b, tags);
    LaterMatchWins(cfg, a, b, tags);
  }

  /** Neither "de" nor " fr" matches the tag "fr". */
  lemma NeitherMatches(a: string, b: string, tags: seq<string>)
    requires a == "de" && b == " fr" && tags == ["fr"]
    ensures !EntryMatches(a, tags) && !EntryMatches(b, tags) && ',' !in a && ',' !in b
  {
    PlainEntryCode(a, "de");
    assert !Contains("fr", "de");
    assert !AnyTagContains(tags[1..], "de");
    assert !AnyTagContains(tags, "de");
    LeadingSpaceNeverMatches(b, tags);
  }

  /**
    Tag "fr", header "de, fr": neither "de" nor " fr" matches, since the
    second entry keeps its leading space, so the result is "".
   */
  lemma SpaceAfterCommaExample(cfg: Config, a: string, b: string, tags: seq<string>)
    requires a == "de" && b == " fr" && tags == ["fr"]
    ensures !EntryMatches(a, tags) && !EntryMatches(b, tags)
    ensures Resolve(cfg, Request("", "", "", a + [','] + b), tags).language == ""
  {
    NeitherMatches(a, b, tags);
    TwoEntryHeader(cfg, a, b, tags);
  }
}
