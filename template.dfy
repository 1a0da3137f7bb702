/**
 * The rewrite the preview's content provider applies to the bundled
 * `index.html` before handing it to the web view: the settings marker is
 * replaced (once) by a script that tells the page it runs inside the editor
 * and which document it previews, and every `src="` and `href="` gets the
 * resource URL prefix inserted after it.
 *
 * JavaScript's `String.prototype.replace` is modelled with its replacement
 * patterns: in a replacement string `$$` stands for `$`, `$&` for the
 * matched text, `` $` `` for the text before the match and `$'` for the text
 * after it (the patterns here have no capture groups, so `$1` and `$<` stay
 * literal).
 */
module Template {
  import opened Wrappers

  const SettingsMarker := "//extension-settings"
  const SrcAttribute := "src=\""
  const HrefAttribute := "href=\""

  /** `pat` occurs in `s` starting at index `i`. */
  predicate MatchAt(s: string, i: nat, pat: string) {
    i + |pat| <= |s| && s[i..i + |pat|] == pat
  }

  ghost predicate Occurs(s: string, pat: string) {
    exists i: nat :: MatchAt(s, i, pat)
  }

  /** `i` is where `pat` occurs in `s` for the first time. */
  ghost predicate IsFirstMatch(s: string, i: nat, pat: string) {
    MatchAt(s, i, pat) && forall j: nat :: j < i ==> !MatchAt(s, j, pat)
  }

  /** The first index at or after `from` where `pat` occurs in `s` (`indexOf`). */
  function FirstMatchFrom(s: string, pat: string, from: nat): (r: Option<nat>)
    decreases |s| - from
    ensures r.Some? ==> from <= r.value && MatchAt(s, r.value, pat)
    ensures r.Some? ==> forall j: nat :: from <= j < r.value ==> !MatchAt(s, j, pat)
    ensures r.None? ==> forall j: nat :: from <= j ==> !MatchAt(s, j, pat)
  {
    if from + |pat| > |s| then None
    else if s[from..from + |pat|] == pat then Some(from)
    else FirstMatchFrom(s, pat, from + 1)
  }

  /**
   * The replacement text for one match, with `$` patterns expanded; a
   * replacement without `$` is inserted verbatim.
   */
  function Substitution(rep: string, matched: string, before: string, after: string): (r: string)
    ensures '$' !in rep ==> r == rep
    decreases |rep|
  {
    if |rep| == 0 then ""
    else if |rep| >= 2 && rep[0] == '$' && rep[1] == '$' then "$" + Substitution(rep[2..], matched, before, after)
    else if |rep| >= 2 && rep[0] == '$' && rep[1] == '&' then matched + Substitution(rep[2..], matched, before, after)
    else if |rep| >= 2 && rep[0] == '$' && rep[1] == '`' then before + Substitution(rep[2..], matched, before, after)
    else if |rep| >= 2 && rep[0] == '$' && rep[1] == '\'' then after + Substitution(rep[2..], matched, before, after)
    else
      assert rep == [rep[0]] + rep[1..];
      [rep[0]] + Substitution(rep[1..], matched, before, after)
  }

  /** `s` with every `$` doubled, the way a literal replacement text is escaped. */
  function Escaped(s: string): string
    decreases |s|
  {
    if s == [] then "" else (if s[0] == '$' then "$$" else [s[0]]) + Escaped(s[1..])
  }

  /** Substituting an escaped text gives back the text, whatever the match. */
  lemma {:induction false} SubstitutionOfEscaped(s: string, matched: string, before: string, after: string)
    ensures Substitution(Escaped(s), matched, before, after) == s
    decreases |s|
  {
    if s != [] {
      var rest := Escaped(s[1..]);
      SubstitutionOfEscaped(s[1..], matched, before, after);
      if s[0] == '$' {
        assert Escaped(s) == "$$" + rest;
        assert Escaped(s)[2..] == rest;
      } else {
        assert Escaped(s) == [s[0]] + rest;
        assert Escaped(s)[1..] == rest;
      }
      assert s == [s[0]] + s[1..];
    }
  }

  /**
   * Each of the four patterns at the head of a replacement: `$$` gives `$`,
   * `$&` the match, `` $` `` the text before it and `$'` the text after it.
   */
  lemma SubstitutionPatternHeads(rest: string, matched: string, before: string, after: string)
    ensures Substitution("$$" + rest, matched, before, after) == "$" + Substitution(rest, matched, before, after)
    ensures Substitution("$&" + rest, matched, before, after) == matched + Substitution(rest, matched, before, after)
    ensures Substitution("$`" + rest, matched, before, after) == before + Substitution(rest, matched, before, after)
    ensures Substitution("$'" + rest, matched, before, after) == after + Substitution(rest, matched, before, after)
  {
    assert ("$$" + rest)[2..] == rest && ("$&" + rest)[2..] == rest;
    assert ("$`" + rest)[2..] == rest && ("$'" + rest)[2..] == rest;
  }

  /**
   * The text before the match, the match and the text after it make up the
   * subject again: `` $`$&$' `` at the head of a replacement yields the whole
   * subject.
   */
  lemma SubstitutionRebuildsSubject(rest: string, matched: string, before: string, after: string)
    ensures Substitution("$`" + ("$&" + ("$'" + rest)), matched, before, after)
      == before + (matched + (after + Substitution(rest, matched, before, after)))
  {
    SubstitutionPatternHeads("$&" + ("$'" + rest), matched, before, after);
    SubstitutionPatternHeads("$'" + rest, matched, before, after);
    SubstitutionPatternHeads(rest, matched, before, after);
  }

  /** `s.replace(pat, rep)` with a string pattern: only the first occurrence is replaced. */
  function ReplaceFirst(s: string, pat: string, rep: string): (r: string)
    ensures !Occurs(s, pat) ==> r == s
    ensures forall i: nat :: IsFirstMatch(s, i, pat) ==>
      r == s[..i] + Substitution(rep, pat, s[..i], s[i + |pat|..]) + s[i + |pat|..]
  {
    match FirstMatchFrom(s, pat, 0)
    case None => s
    case Some(i) =>
      assert forall j: nat :: IsFirstMatch(s, j, pat) ==> j == i;
      s[..i] + Substitution(rep, pat, s[..i], s[i + |pat|..]) + s[i + |pat|..]
  }

  /**
   * With `` $`$&$' `` at the head of the replacement, `s.replace(pat, …)`
   * puts the whole subject in place of its first match: the text before the
   * match, the match and the text after it make up `s` again.
   */
  lemma ReplaceFirstRepeatsSubject(s: string, pat: string, i: nat, rest: string)
    requires IsFirstMatch(s, i, pat)
    ensures ReplaceFirst(s, pat, "$`" + ("$&" + ("$'" + rest)))
      == s[..i] + s + Substitution(rest, pat, s[..i], s[i + |pat|..]) + s[i + |pat|..]
  {
    var before := s[..i];
    var after := s[i + |pat|..];
    var rep := "$`" + ("$&" + ("$'" + rest));
    var tail := Substitution(rest, pat, before, after);
    assert ReplaceFirst(s, pat, rep) == before + Substitution(rep, pat, before, after) + after;
    SubstitutionRebuildsSubject(rest, pat, before, after);
    SubjectAroundMatch(s, pat, i, tail);
  }

  /** Around its match, the subject is the text before it, the match and the text after it. */
  lemma SubjectAroundMatch(s: string, pat: string, i: nat, tail: string)
    requires MatchAt(s, i, pat)
    ensures s[..i] + (s[..i] + (pat + (s[i + |pat|..] + tail))) + s[i + |pat|..]
      == s[..i] + s + tail + s[i + |pat|..]
  {
    var before := s[..i];
    var after := s[i + |pat|..];
    assert s == before + s[i..i + |pat|] + after;
  }

  /**
   * `s.replace(/pat/g, rep)`: the global scan from left to right, replacing
   * non-overlapping matches; `done` is the part of the subject already
   * scanned, which `` $` `` refers to.
   */
  function ReplaceAllAfter(done: string, s: string, pat: string, rep: string): string
    requires |pat| > 0
    decreases |s|
  {
    if |s| < |pat| then s
    else if s[..|pat|] == pat then
      Substitution(rep, pat, done, s[|pat|..]) + ReplaceAllAfter(done + pat, s[|pat|..], pat, rep)
    else [s[0]] + ReplaceAllAfter(done + [s[0]], s[1..], pat, rep)
  }

  /** `s.replace(/pat/g, rep)`: text in which the pattern does not occur comes back unchanged. */
  function ReplaceAll(s: string, pat: string, rep: string): (r: string)
    requires |pat| > 0
    ensures !Occurs(s, pat) ==> r == s
  {
    ReplaceAllNoMatch("", s, pat, rep);
    ReplaceAllAfter("", s, pat, rep)
  }

  /** Text in which the pattern does not occur goes through a global replace unchanged. */
  lemma {:induction false} ReplaceAllNoMatch(done: string, s: string, pat: string, rep: string)
    requires |pat| > 0
    ensures !Occurs(s, pat) ==> ReplaceAllAfter(done, s, pat, rep) == s
    decreases |s|
  {
    if |s| >= |pat| && !Occurs(s, pat) {
      assert !MatchAt(s, 0, pat);
      assert s[..|pat|] == s[0..0 + |pat|];
      assert !Occurs(s[1..], pat) by {
        forall j: nat ensures !MatchAt(s[1..], j, pat) {
          assert !MatchAt(s, j + 1, pat);
          if j + |pat| <= |s[1..]| {
            assert s[1..][j..j + |pat|] == s[j + 1..j + 1 + |pat|];
          }
        }
      }
      ReplaceAllNoMatch(done + [s[0]], s[1..], pat, rep);
      assert s == [s[0]] + s[1..];
    }
  }

  /**
   * Inserting `prefix` after every `pat` keeps the first `n` characters
   * (for `n` up to the pattern length) as they were.
   */
  lemma {:induction false} InsertKeepsHead(done: string, s: string, pat: string, prefix: string, n: nat)
    requires |pat| > 0 && '$' !in pat + prefix
    requires n <= |pat| && n <= |s|
    ensures |ReplaceAllAfter(done, s, pat, pat + prefix)| >= n
    ensures ReplaceAllAfter(done, s, pat, pat + prefix)[..n] == s[..n]
    decreases |s|
  {
    var t := ReplaceAllAfter(done, s, pat, pat + prefix);
    if |s| < |pat| {
    } else if s[..|pat|] == pat {
            assert t == pat + prefix + ReplaceAllAfter(done + pat, s[|pat|..], pat, pat + prefix);
      assert t[..n] == pat[..n];
      assert s[..n] == s[..|pat|][..n];
    } else if n > 0 {
      var rest := ReplaceAllAfter(done + [s[0]], s[1..], pat, pat + prefix);
      InsertKeepsHead(done + [s[0]], s[1..], pat, prefix, n - 1);
      assert t == [s[0]] + rest;
      assert t[..n] == [s[0]] + rest[..n - 1];
      assert s[..n] == [s[0]] + s[1..][..n - 1];
    }
  }

  /**
   * Reading `t` the way the global replace scans it, every match of `pat`
   * is immediately followed by `prefix` (which the scan then steps over).
   */
  predicate EachMatchFollowedBy(t: string, pat: string, prefix: string)
    requires |pat| > 0
    decreases |t|
  {
    if |t| < |pat| then true
    else if t[..|pat|] == pat then
      && |t| >= |pat| + |prefix|
      && t[|pat|..|pat| + |prefix|] == prefix
      && EachMatchFollowedBy(t[|pat| + |prefix|..], pat, prefix)
    else EachMatchFollowedBy(t[1..], pat, prefix)
  }

  /** Removes the `prefix` that follows matches of `pat`, scanning as the global replace does. */
  function StripAfterEach(t: string, pat: string, prefix: string): string
    requires |pat| > 0
    decreases |t|
  {
    if |t| < |pat| then t
    else if t[..|pat|] == pat then
      if |t| >= |pat| + |prefix| && t[|pat|..|pat| + |prefix|] == prefix then
        pat + StripAfterEach(t[|pat| + |prefix|..], pat, prefix)
      else pat + StripAfterEach(t[|pat|..], pat, prefix)
    else [t[0]] + StripAfterEach(t[1..], pat, prefix)
  }

  /** Where the scan meets `pat`, the inserting replace emits `pat + prefix`. */
  lemma InsertAtMatch(done: string, s: string, pat: string, prefix: string)
    requires |pat| > 0 && '$' !in pat + prefix
    requires |s| >= |pat| && s[..|pat|] == pat
    ensures ReplaceAllAfter(done, s, pat, pat + prefix)
      == pat + prefix + ReplaceAllAfter(done + pat, s[|pat|..], pat, pat + prefix)
  {
      }

  /**
   * Where the scan does not meet `pat`, the inserting replace emits the
   * character as it is, and its output does not start with `pat` either.
   */
  lemma InsertPastMismatch(done: string, s: string, pat: string, prefix: string)
    requires |pat| > 0 && '$' !in pat + prefix
    requires |s| >= |pat| && s[..|pat|] != pat
    ensures var t := ReplaceAllAfter(done, s, pat, pat + prefix);
      && t == [s[0]] + ReplaceAllAfter(done + [s[0]], s[1..], pat, pat + prefix)
      && |t| >= |pat| && t[..|pat|] != pat
  {
    var rest := ReplaceAllAfter(done + [s[0]], s[1..], pat, pat + prefix);
    var t := [s[0]] + rest;
    InsertKeepsHead(done + [s[0]], s[1..], pat, prefix, |pat| - 1);
    assert t[..|pat|] == [s[0]] + rest[..|pat| - 1];
    assert s[..|pat|] == [s[0]] + s[1..][..|pat| - 1];
  }

  /**
   * `s.replace(/pat/g, pat + prefix)`: afterwards every match of `pat` is
   * followed by `prefix`.
   */
  lemma {:induction false} InsertAfterEach(done: string, s: string, pat: string, prefix: string)
    requires |pat| > 0 && '$' !in pat + prefix
    ensures EachMatchFollowedBy(ReplaceAllAfter(done, s, pat, pat + prefix), pat, prefix)
    decreases |s|
  {
    var t := ReplaceAllAfter(done, s, pat, pat + prefix);
    if |s| < |pat| {
    } else if s[..|pat|] == pat {
      var rest := ReplaceAllAfter(done + pat, s[|pat|..], pat, pat + prefix);
      InsertAtMatch(done, s, pat, prefix);
      InsertAfterEach(done + pat, s[|pat|..], pat, prefix);
      assert t[..|pat|] == pat;
      assert t[|pat|..|pat| + |prefix|] == prefix;
      assert t[|pat| + |prefix|..] == rest;
    } else {
      InsertPastMismatch(done, s, pat, prefix);
      InsertAfterEach(done + [s[0]], s[1..], pat, prefix);
      assert t[1..] == ReplaceAllAfter(done + [s[0]], s[1..], pat, pat + prefix);
    }
  }

  /**
   * Removing the prefixes after the matches of `pat` from
   * `s.replace(/pat/g, pat + prefix)` gives back `s`: nothing else changed.
   */
  lemma {:induction false} StripUndoesInsert(done: string, s: string, pat: string, prefix: string)
    requires |pat| > 0 && '$' !in pat + prefix
    ensures StripAfterEach(ReplaceAllAfter(done, s, pat, pat + prefix), pat, prefix) == s
    decreases |s|
  {
    var t := ReplaceAllAfter(done, s, pat, pat + prefix);
    if |s| < |pat| {
    } else if s[..|pat|] == pat {
      var rest := ReplaceAllAfter(done + pat, s[|pat|..], pat, pat + prefix);
      InsertAtMatch(done, s, pat, prefix);
      StripUndoesInsert(done + pat, s[|pat|..], pat, prefix);
      assert t[..|pat|] == pat;
      assert t[|pat|..|pat| + |prefix|] == prefix;
      assert t[|pat| + |prefix|..] == rest;
      assert s == pat + s[|pat|..];
    } else {
      InsertPastMismatch(done, s, pat, prefix);
      StripUndoesInsert(done + [s[0]], s[1..], pat, prefix);
      assert t[1..] == ReplaceAllAfter(done + [s[0]], s[1..], pat, pat + prefix);
      assert s == [s[0]] + s[1..];
    }
  }

  /** What the settings script says before the URI of the previewed document. */
  const ScriptHead := "window[\"VSC_MODE\"] = true;" + "window[\"VSC_URI\"] = \""

  /**
   * The script that replaces the settings marker: it sets `VSC_MODE` and
   * then `VSC_URI` to the decoded URI, in double quotes.
   */
  function SettingsScript(decodedUri: string): (script: string)
    ensures |script| == |ScriptHead| + |decodedUri| + 2
    ensures script[..|ScriptHead|] == ScriptHead
    ensures script[|ScriptHead|..|script| - 2] == decodedUri
    ensures script[|script| - 2..] == "\";"
  {
    ScriptHead + decodedUri + "\";"
  }

  /** Different documents get different settings scripts. */
  lemma SettingsScriptInjective(u1: string, u2: string)
    requires SettingsScript(u1) == SettingsScript(u2)
    ensures u1 == u2
  {
    var s := SettingsScript(u1);
    assert u1 == s[|ScriptHead|..|s| - 2];
  }

  /**
   * The prefix put in front of resource links: the extension's
   * `out/qmkmapper` directory as a file URI followed by `/`, unless the
   * configured override is a non-empty string.
   */
  function UrlPrefix(outDirectoryUri: string, configuredPrefix: string): (prefix: string)
    ensures prefix == configuredPrefix <==> configuredPrefix != ""
    ensures configuredPrefix == "" ==> prefix == outDirectoryUri + "/"
  {
    if configuredPrefix != "" then configuredPrefix else outDirectoryUri + "/"
  }

  /**
   * The page served to the preview, from the template file's text: a
   * template without the marker and without resource links is served as it is.
   */
  function RewriteTemplate(html: string, decodedUri: string, urlPrefix: string): (page: string)
    ensures !Occurs(html, SettingsMarker) && !Occurs(html, SrcAttribute) && !Occurs(html, HrefAttribute)
      ==> page == html
  {
    var withSettings := ReplaceFirst(html, SettingsMarker, SettingsScript(decodedUri));
    var withSrc := ReplaceAll(withSettings, SrcAttribute, SrcAttribute + urlPrefix);
    ReplaceAll(withSrc, HrefAttribute, HrefAttribute + urlPrefix)
  }

  /**
   * After the rewrite every `href="` is followed by the prefix; with those
   * removed every `src="` is followed by the prefix; with those removed too,
   * what is left is the template with only its first settings marker
   * replaced. Holds when the prefix has no `$` in it.
   */
  lemma RewriteInsertsPrefix(html: string, decodedUri: string, urlPrefix: string)
    requires '$' !in urlPrefix
    ensures var out := RewriteTemplate(html, decodedUri, urlPrefix);
      var withoutHref := StripAfterEach(out, HrefAttribute, urlPrefix);
      && EachMatchFollowedBy(out, HrefAttribute, urlPrefix)
      && EachMatchFollowedBy(withoutHref, SrcAttribute, urlPrefix)
      && StripAfterEach(withoutHref, SrcAttribute, urlPrefix)
         == ReplaceFirst(html, SettingsMarker, SettingsScript(decodedUri))
  {
    var withSettings := ReplaceFirst(html, SettingsMarker, SettingsScript(decodedUri));
    var withSrc := ReplaceAll(withSettings, SrcAttribute, SrcAttribute + urlPrefix);
    InsertAfterEach("", withSettings, SrcAttribute, urlPrefix);
    StripUndoesInsert("", withSettings, SrcAttribute, urlPrefix);
    InsertAfterEach("", withSrc, HrefAttribute, urlPrefix);
    StripUndoesInsert("", withSrc, HrefAttribute, urlPrefix);
  }
}
