/**
  The two functions of Go's `strings` package that the language middleware
  calls, over strings as sequences of characters: `Split` with a
  one-character separator and `Contains`. `Join`, the inverse of `Split`, is
  not called by the middleware; it is here to state what `Split` computes.

  Go strings are byte strings; every separator used here is ASCII, and a
  substring test on valid UTF-8 agrees with one on the decoded characters,
  so working on `seq<char>` loses nothing for these operations.
 */
module GoStrings {

  /** `sub` occurs in `s` starting at index `i`. */
  ghost predicate OccursAt(s: string, sub: string, i: int)
  {
    0 <= i && i + |sub| <= |s| && s[i..i + |sub|] == sub
  }

  /** `sub` is a contiguous piece of `s`. */
  ghost predicate IsSubstring(sub: string, s: string)
  {
    exists i :: OccursAt(s, sub, i)
  }

  /** `strings.Contains(s, sub)`: tries every start position from the left. */
  function Contains(s: string, sub: string): (found: bool)
    ensures |sub| == 0 ==> found
    ensures found ==> |sub| <= |s|
    decreases |s|
  {
    if sub <= s then true
    else if |s| == 0 then false
    else Contains(s[1..], sub)
  }

  /** `Contains` is exactly the substring relation. */
  lemma {:induction false} ContainsIsSubstring(s: string, sub: string)
    ensures Contains(s, sub) <==> IsSubstring(sub, s)
    decreases |s|
  {
    if sub <= s {
      assert OccursAt(s, sub, 0);
    } else if |s| == 0 {
      assert |sub| > 0;
    } else {
      ContainsIsSubstring(s[1..], sub);
      if IsSubstring(sub, s[1..]) {
        var i :| OccursAt(s[1..], sub, i);
        assert s[1..][i..i + |sub|] == s[i + 1..i + 1 + |sub|];
        assert OccursAt(s, sub, i + 1);
      }
      if IsSubstring(sub, s) {
        var i :| OccursAt(s, sub, i);
        assert i != 0;
        assert s[1..][i - 1..i - 1 + |sub|] == s[i..i + |sub|];
        assert OccursAt(s[1..], sub, i - 1);
      }
    }
  }

  /** The empty string is contained in every string. */
  lemma ContainsEmpty(s: string)
    ensures Contains(s, "")
  {
  }

  /** A string containing `sub` contains every character of `sub`. */
  lemma ContainsCharOf(s: string, sub: string, k: nat)
    requires Contains(s, sub)
    requires k < |sub|
    ensures sub[k] in s
  {
    ContainsIsSubstring(s, sub);
    var i :| OccursAt(s, sub, i);
    assert s[i + k] == sub[k];
  }

  /** `strings.Join(parts, string(sep))`: the pieces with `sep` between neighbours. */
  function Join(parts: seq<string>, sep: char): (s: string)
    requires |parts| >= 1
    ensures |s| >= |parts| - 1
  {
    if |parts| == 1 then parts[0] else parts[0] + [sep] + Join(parts[1..], sep)
  }

  /**
    `strings.Split(s, string(sep))`: the maximal pieces of `s` between
    occurrences of `sep`. There is always at least one piece, and the pieces
    rejoined with `sep` give back `s`.
   */
  function Split(s: string, sep: char): (parts: seq<string>)
    ensures |parts| >= 1
    ensures forall k :: 0 <= k < |parts| ==> sep !in parts[k]
    ensures Join(parts, sep) == s
    decreases |s|
  {
    if |s| == 0 then [""]
    else
      var rest := Split(s[1..], sep);
      if s[0] == sep then
        assert ([""] + rest)[1..] == rest;
        [""] + rest
      else
        var parts := [[s[0]] + rest[0]] + rest[1..];
        assert |rest| > 1 ==> parts[1..] == rest[1..];
        assert [s[0]] + s[1..] == s;
        parts
  }

  /** Splitting a separator-free prefix followed by more text. */
  lemma {:induction false} SplitFreePrefix(p: string, t: string, sep: char)
    requires sep !in p
    ensures Split(p + t, sep) == [p + Split(t, sep)[0]] + Split(t, sep)[1..]
    decreases |p|
  {
    var pieces := Split(t, sep);
    if |p| == 0 {
      assert p + t == t;
      assert p + pieces[0] == pieces[0];
      assert pieces == [pieces[0]] + pieces[1..];
    } else {
      var q := p + t;
      assert q[0] == p[0] && q[1..] == p[1..] + t;
      SplitFreePrefix(p[1..], t, sep);
      var rest := Split(q[1..], sep);
      assert rest[0] == p[1..] + pieces[0] && rest[1..] == pieces[1..];
      assert Split(q, sep) == [[q[0]] + rest[0]] + rest[1..];
      assert [p[0]] + (p[1..] + pieces[0]) == p + pieces[0];
    }
  }

  /** A leading separator adds one empty piece at the front. */
  lemma SplitLeadingSeparator(t: string, sep: char)
    ensures Split([sep] + t, sep) == [""] + Split(t, sep)
  {
    assert ([sep] + t)[1..] == t;
  }

  /** A string without the separator is a single piece. */
  lemma SplitFree(p: string, sep: char)
    requires sep !in p
    ensures Split(p, sep) == [p]
  {
    SplitFreePrefix(p, "", sep);
    assert p + "" == p;
  }

  /** `Split` undoes `Join` when no piece contains the separator. */
  lemma {:induction false} SplitJoin(parts: seq<string>, sep: char)
    requires |parts| >= 1
    requires forall k :: 0 <= k < |parts| ==> sep !in parts[k]
    ensures Split(Join(parts, sep), sep) == parts
    decreases |parts|
  {
    var first := parts[0];
    if |parts| == 1 {
      SplitFree(first, sep);
    } else {
      var rest := parts[1..];
      var tail := Join(rest, sep);
      SplitJoin(rest, sep);
      SplitLeadingSeparator(tail, sep);
      var pieces := Split([sep] + tail, sep);
      assert pieces[0] == "" && pieces[1..] == rest;
      SplitFreePrefix(first, [sep] + tail, sep);
      assert Split(first + ([sep] + tail), sep) == [first + ""] + rest;
      assert first + "" == first;
      assert Join(parts, sep) == first + ([sep] + tail);
    }
  }

  /** Appending one more piece to a join. */
  lemma {:induction false} JoinAppend(parts: seq<string>, last: string, sep: char)
    requires |parts| >= 1
    ensures Join(parts + [last], sep) == Join(parts, sep) + [sep] + last
    decreases |parts|
  {
    if |parts| == 1 {
      assert (parts + [last])[1..] == [last];
    } else {
      JoinAppend(parts[1..], last, sep);
      assert (parts + [last])[1..] == parts[1..] + [last];
    }
  }

  /** A trailing separator adds one empty piece at the end. */
  lemma SplitTrailingSeparator(s: string, sep: char)
    ensures Split(s + [sep], sep) == Split(s, sep) + [""]
  {
    var parts := Split(s, sep) + [""];
    JoinAppend(Split(s, sep), "", sep);
    assert Join(parts, sep) == s + [sep];
    SplitJoin(parts, sep);
  }

  /**
    The part of `s` before the first `sep`, or all of `s` when there is none;
    `FirstFieldIsSplitHead` shows it is `strings.Split(s, string(sep))[0]`.
   */
  function FirstField(s: string, sep: char): (r: string)
    ensures r <= s
    ensures sep !in r
    ensures |r| == |s| || s[|r|] == sep
    decreases |s|
  {
    if |s| == 0 || s[0] == sep then "" else [s[0]] + FirstField(s[1..], sep)
  }

  /** `FirstField` is the only prefix with the properties above. */
  lemma FirstFieldUnique(s: string, sep: char, p: string)
    requires p <= s && sep !in p
    requires |p| == |s| || s[|p|] == sep
    ensures FirstField(s, sep) == p
  {
    var r := FirstField(s, sep);
    assert forall k :: 0 <= k < |r| && k < |p| ==> r[k] == s[k] == p[k];
  }

  /** `FirstField` is the first piece of `Split`. */
  lemma FirstFieldIsSplitHead(s: string, sep: char)
    ensures FirstField(s, sep) == Split(s, sep)[0]
  {
    var parts := Split(s, sep);
    assert |parts| > 1 ==> Join(parts, sep) == parts[0] + ([sep] + Join(parts[1..], sep));
    FirstFieldUnique(s, sep, parts[0]);
  }
}
