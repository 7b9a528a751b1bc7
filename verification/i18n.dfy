/**
  The language-resolution step of the Iris i18n middleware (`I18n.Serve`).

  Each request is resolved from, in order: a language an earlier handler
  already stored in the request's value store, the URL parameter, the
  language cookie, and the `Accept-Language` header. The decision is modelled
  as the pure function `Resolve`; `Serve` follows the handler's own control
  flow step by step and is proved to agree with it.
 */
module I18n {
  import opened GoStrings

  datatype Option<T> = None | Some(value: T)

  /** The middleware's configuration: the `I18n` struct without its bundle. */
  datatype Config = Config(defaultLanguage: string, urlParameter: string)

  /** The configuration `New` returns. */
  function New(): (cfg: Config)
    ensures cfg.defaultLanguage == "en-US" && cfg.urlParameter == "lang"
  {
    Config("en-US", "lang")
  }

  /**
    What one request offers the resolver. Each field is the value the host
    returns, with "" standing for absent: the string stored under the
    language key, the URL parameter named by `urlParameter`, the cookie under
    the language key, and the raw `Accept-Language` header.
   */
  datatype Request = Request(stored: string, urlParam: string, cookie: string, acceptLanguage: string)

  /**
    What one call leaves behind: the language the localizer is built for, the
    value of the language cookie written (if one is), and the value stored
    under the language key for later handlers.
   */
  datatype Outcome = Outcome(language: string, cookieWrite: Option<string>, stored: string)

  /** An `Accept-Language` entry without its `;`-parameters (the quality value is ignored). */
  function LanguageRange(entry: string): (range: string)
    ensures range <= entry && ';' !in range
    ensures |range| == |entry| || entry[|range|] == ';'
  {
    FirstField(entry, ';')
  }

  /** The part of a language range before its first `-`; nothing is trimmed. */
  function PrimaryCode(range: string): (code: string)
    ensures code <= range && '-' !in code
    ensures |code| == |range| || range[|code|] == '-'
  {
    FirstField(range, '-')
  }

  /** The loop over tags: some tag, tried in order, contains `code`. */
  predicate AnyTagContains(tags: seq<string>, code: string)
    decreases |tags|
  {
    |tags| > 0 && (Contains(tags[0], code) || AnyTagContains(tags[1..], code))
  }

  /** The tag loop succeeds exactly when some tag contains the code. */
  lemma {:induction false} AnyTagContainsSome(tags: seq<string>, code: string)
    ensures AnyTagContains(tags, code) <==> exists k :: 0 <= k < |tags| && Contains(tags[k], code)
    decreases |tags|
  {
    if |tags| > 0 {
      AnyTagContainsSome(tags[1..], code);
      if exists k :: 0 <= k < |tags| && Contains(tags[k], code) {
        var k :| 0 <= k < |tags| && Contains(tags[k], code);
        if k > 0 {
          assert tags[1..][k - 1] == tags[k];
        }
      }
      if AnyTagContains(tags[1..], code) {
        var k :| 0 <= k < |tags[1..]| && Contains(tags[1..][k], code);
        assert tags[k + 1] == tags[1..][k];
      }
    }
  }

  /** The loop over tags for one entry finds a tag containing the entry's primary code. */
  predicate EntryMatches(entry: string, tags: seq<string>)
  {
    AnyTagContains(tags, PrimaryCode(LanguageRange(entry)))
  }

  /** An entry matches exactly when its primary code is a contiguous piece of some tag. */
  lemma EntryMatchesIsSubstring(entry: string, tags: seq<string>)
    ensures EntryMatches(entry, tags) <==> exists k :: 0 <= k < |tags| && IsSubstring(PrimaryCode(LanguageRange(entry)), tags[k])
  {
    var code := PrimaryCode(LanguageRange(entry));
    AnyTagContainsSome(tags, code);
    forall k | 0 <= k < |tags|
      ensures Contains(tags[k], code) <==> IsSubstring(code, tags[k])
    {
      ContainsIsSubstring(tags[k], code);
    }
  }

  /** No entry of the header matches any tag. */
  ghost predicate NoMatch(entries: seq<string>, tags: seq<string>)
  {
    forall j :: 0 <= j < |entries| ==> !EntryMatches(entries[j], tags)
  }

  /** Entry `i` matches and no later entry does. */
  ghost predicate IsLastMatch(entries: seq<string>, tags: seq<string>, i: int)
  {
    && 0 <= i < |entries|
    && EntryMatches(entries[i], tags)
    && forall j :: i < j < |entries| ==> !EntryMatches(entries[j], tags)
  }

  /**
    The loop over header entries as a left fold: every matching entry
    overwrites `language` with its language range.
   */
  function ScanEntries(entries: seq<string>, tags: seq<string>, language: string): string
    decreases |entries|
  {
    if |entries| == 0 then language
    else
      var next := if EntryMatches(entries[0], tags) then LanguageRange(entries[0]) else language;
      ScanEntries(entries[1..], tags, next)
  }

  /** The fold leaves either its starting value or the language range of one of the entries. */
  lemma {:induction false} ScanEntriesYieldsEntryRange(entries: seq<string>, tags: seq<string>, language: string)
    ensures var result := ScanEntries(entries, tags, language);
            result == language || exists i :: 0 <= i < |entries| && result == LanguageRange(entries[i])
    decreases |entries|
  {
    if |entries| > 0 {
      var next := if EntryMatches(entries[0], tags) then LanguageRange(entries[0]) else language;
      ScanEntriesYieldsEntryRange(entries[1..], tags, next);
      var result := ScanEntries(entries, tags, language);
      if result != next {
        var i :| 0 <= i < |entries[1..]| && result == LanguageRange(entries[1..][i]);
        assert entries[1..][i] == entries[i + 1];
      }
    }
  }

  /** When the first entry is the last match, no later entry matches. */
  lemma LastMatchAtHead(entries: seq<string>, tags: seq<string>)
    requires IsLastMatch(entries, tags, 0)
    ensures NoMatch(entries[1..], tags)
  {
    forall j | 0 <= j < |entries[1..]|
      ensures !EntryMatches(entries[1..][j], tags)
    {
      assert entries[1..][j] == entries[j + 1];
    }
  }

  /** A last match after the first entry is a last match of the rest. */
  lemma LastMatchInTail(entries: seq<string>, tags: seq<string>, i: int)
    requires IsLastMatch(entries, tags, i) && i > 0
    ensures IsLastMatch(entries[1..], tags, i - 1)
  {
    assert entries[1..][i - 1] == entries[i];
    forall j | i - 1 < j < |entries[1..]|
      ensures !EntryMatches(entries[1..][j], tags)
    {
      assert entries[1..][j] == entries[j + 1];
    }
  }

  /** The fold returns the language range of the last matching entry. */
  lemma {:induction false} ScanEntriesLastMatch(entries: seq<string>, tags: seq<string>, language: string, i: int)
    requires IsLastMatch(entries, tags, i)
    ensures ScanEntries(entries, tags, language) == LanguageRange(entries[i])
    decreases |entries|
  {
    var next := if EntryMatches(entries[0], tags) then LanguageRange(entries[0]) else language;
    assert ScanEntries(entries, tags, language) == ScanEntries(entries[1..], tags, next);
    if i == 0 {
      LastMatchAtHead(entries, tags);
      ScanEntriesNoMatch(entries[1..], tags, next);
    } else {
      LastMatchInTail(entries, tags, i);
      ScanEntriesLastMatch(entries[1..], tags, next, i - 1);
    }
  }

  /** With no matching entry the fold returns its starting value. */
  lemma {:induction false} ScanEntriesNoMatch(entries: seq<string>, tags: seq<string>, language: string)
    requires NoMatch(entries, tags)
    ensures ScanEntries(entries, tags, language) == language
    decreases |entries|
  {
    if |entries| > 0 {
      assert !EntryMatches(entries[0], tags);
      assert NoMatch(entries[1..], tags) by {
        forall j | 0 <= j < |entries[1..]|
          ensures !EntryMatches(entries[1..][j], tags)
        {
          assert entries[1..][j] == entries[j + 1];
        }
      }
      ScanEntriesNoMatch(entries[1..], tags, language);
    }
  }

  /** One step of the fold: the first remaining entry is consumed. */
  lemma ScanEntriesStep(entries: seq<string>, tags: seq<string>, i: nat, language: string)
    requires i < |entries|
    ensures ScanEntries(entries[i..], tags, language)
         == ScanEntries(entries[i + 1..], tags, if EntryMatches(entries[i], tags) then LanguageRange(entries[i]) else language)
  {
    assert entries[i..][1..] == entries[i + 1..];
  }

  /** A sequence of flags with some flag set has a last set flag. */
  lemma {:induction false} LastSetFlagExists(flags: seq<bool>)
    requires true in flags
    ensures exists i :: 0 <= i < |flags| && flags[i] && forall j :: i < j < |flags| ==> !flags[j]
    decreases |flags|
  {
    var n := |flags| - 1;
    if !flags[n] {
      var front := flags[..n];
      assert true in front;
      LastSetFlagExists(front);
      var i :| 0 <= i < |front| && front[i] && forall j :: i < j < |front| ==> !front[j];
      assert flags[i];
      forall j | i < j < |flags|
        ensures !flags[j]
      {
        if j < n {
          assert flags[j] == front[j];
        }
      }
    }
  }

  /** When some entry matches, there is a last one. */
  lemma LastMatchExists(entries: seq<string>, tags: seq<string>)
    requires !NoMatch(entries, tags)
    ensures exists i :: IsLastMatch(entries, tags, i)
  {
    var flags := seq(|entries|, j requires 0 <= j < |entries| => EntryMatches(entries[j], tags));
    var j0 :| 0 <= j0 < |entries| && EntryMatches(entries[j0], tags);
    assert flags[j0];
    LastSetFlagExists(flags);
    var i :| 0 <= i < |flags| && flags[i] && forall j :: i < j < |flags| ==> !flags[j];
    forall j | i < j < |entries|
      ensures !EntryMatches(entries[j], tags)
    {
      assert !flags[j];
    }
    assert IsLastMatch(entries, tags, i);
  }

  /**
    The loop over tags for one entry, as the handler writes it: on the first
    tag that contains the primary code of `lc` the language becomes `lc` and
    the loop is left; otherwise the language stays `before`.
   */
  method ScanTags(lc: string, tags: seq<string>, before: string) returns (language: string)
    ensures language == if AnyTagContains(tags, PrimaryCode(lc)) then lc else before
  {
    language := before;
    var k := 0;
    while k < |tags|
      invariant 0 <= k <= |tags|
      invariant language == before
      invariant AnyTagContains(tags[k..], PrimaryCode(lc)) == AnyTagContains(tags, PrimaryCode(lc))
    {
      var code := PrimaryCode(lc);
      assert tags[k..][1..] == tags[k + 1..];
      if Contains(tags[k], code) {
        language := lc;
        break;
      }
      k := k + 1;
    }
  }

  /**
    The header scan as the handler writes it: split the header on `,`, and
    run the tag loop for each entry's language range. The `break` only
    leaves the loop over tags, so later entries keep overwriting the result.
   */
  method ScanAcceptLanguage(header: string, tags: seq<string>, initial: string) returns (language: string)
    ensures language == ScanEntries(Split(header, ','), tags, initial)
    ensures forall i :: IsLastMatch(Split(header, ','), tags, i) ==> language == LanguageRange(Split(header, ',')[i])
    ensures NoMatch(Split(header, ','), tags) ==> language == initial
  {
    language := initial;
    var entries := Split(header, ',');
    var i := 0;
    while i < |entries|
      invariant 0 <= i <= |entries|
      invariant ScanEntries(entries[i..], tags, language) == ScanEntries(entries, tags, initial)
    {
      var before := language;
      language := ScanTags(LanguageRange(entries[i]), tags, before);
      ScanEntriesStep(entries, tags, i, before);
      i := i + 1;
    }
    forall j | IsLastMatch(entries, tags, j)
      ensures language == LanguageRange(entries[j])
    {
      ScanEntriesLastMatch(entries, tags, initial, j);
    }
    if NoMatch(entries, tags) {
      ScanEntriesNoMatch(entries, tags, initial);
    }
  }

  /**
    The resolution decision. An already stored language is replaced by the
    configured default; otherwise the URL parameter, then the cookie, then the
    header scan (starting from the empty cookie value) decide, and "" is the
    result when none of them yields anything. A cookie is written unless the
    cookie was the source or a language was already stored, and the store
    always ends up holding the resolved language.
   */
  function Resolve(cfg: Config, req: Request, tags: seq<string>): (o: Outcome)
    ensures o.stored == o.language
    ensures o.cookieWrite.Some? <==> req.stored == "" && (req.urlParam != "" || req.cookie == "")
    ensures o.cookieWrite.Some? ==> o.cookieWrite.value == o.language
  {
    if req.stored != "" then
      Outcome(cfg.defaultLanguage, None, cfg.defaultLanguage)
    else if req.urlParam != "" then
      Outcome(req.urlParam, Some(req.urlParam), req.urlParam)
    else if req.cookie != "" then
      Outcome(req.cookie, None, req.cookie)
    else
      var entries := Split(req.acceptLanguage, ',');
      var language := if |req.acceptLanguage| > 0 then ScanEntries(entries, tags, req.cookie) else req.cookie;
      Outcome(language, Some(language), language)
  }

  /**
    `Serve` with the handler's own mutable variables and nesting. The
    localizer, the translate closure and `ctx.Next()` are not part of the
    outcome.
   */
  method Serve(cfg: Config, req: Request, tags: seq<string>) returns (o: Outcome)
    ensures o == Resolve(cfg, req, tags)
  {
    var wasByCookie := false;
    var language := cfg.defaultLanguage;
    var cookieWrite := None;
    if req.stored == "" {
      language := req.urlParam;
      if language == "" {
        language := req.cookie;
        if |language| > 0 {
          wasByCookie := true;
        } else {
          var langHeader := req.acceptLanguage;
          if |langHeader| > 0 {
            language := ScanAcceptLanguage(langHeader, tags, language);
          }
        }
      }
      if !wasByCookie {
        cookieWrite := Some(language);
      }
    }
    o := Outcome(language, cookieWrite, language);
  }
}
