/** String predicates used to resolve a default branch: upper-casing,
    prefix and suffix tests, the wiki-name test and ref normalisation. */
module Refs {

  /** Upper-cases one character; only the ASCII letters a-z change. */
  function UpperChar(ch: char): char
  {
    if 'a' <= ch <= 'z' then (ch as int - 32) as char else ch
  }

  /** `s.toUpperCase()`, character by character. */
  function ToUpper(s: string): (r: string)
    ensures |r| == |s|
    ensures forall i :: 0 <= i < |s| ==> r[i] == UpperChar(s[i])
  {
    if s == [] then [] else [UpperChar(s[0])] + ToUpper(s[1..])
  }

  /** `s.startsWith(prefix)`. */
  predicate StartsWith(s: string, prefix: string)
  {
    prefix <= s
  }

  /** `s.endsWith(suffix)`. */
  predicate EndsWith(s: string, suffix: string)
  {
    |suffix| <= |s| && s[|s| - |suffix|..] == suffix
  }

  /** Two strings that differ at most in the case of their letters. */
  predicate EqualsIgnoringCase(a: string, b: string)
  {
    |a| == |b| && forall i :: 0 <= i < |a| ==> UpperChar(a[i]) == UpperChar(b[i])
  }

  const WikiSuffix := ".WIKI"
  const RefsPrefix := "refs/"
  const HeadsPrefix := "refs/heads/"

  /** The repository is a wiki: its upper-cased name ends in `.WIKI`. */
  predicate IsWikiName(repo: string)
  {
    EndsWith(ToUpper(repo), WikiSuffix)
  }

  /** A repository name is a wiki name exactly when its last five characters
      spell `.wiki` in any mix of upper and lower case. */
  lemma WikiNameIff(repo: string)
    ensures IsWikiName(repo) <==> |repo| >= 5 && EqualsIgnoringCase(repo[|repo| - 5..], ".wiki")
  {
    var u := ToUpper(repo);
    if |repo| >= 5 {
      var tail := repo[|repo| - 5..];
      if EqualsIgnoringCase(tail, ".wiki") {
        forall i | 0 <= i < 5
          ensures u[|repo| - 5..][i] == WikiSuffix[i]
        {
          assert UpperChar(tail[i]) == UpperChar(".wiki"[i]);
        }
      }
      if IsWikiName(repo) {
        forall i | 0 <= i < 5
          ensures UpperChar(tail[i]) == UpperChar(".wiki"[i])
        {
          assert u[|repo| - 5 + i] == WikiSuffix[i];
        }
      }
    }
  }

  /** Appending `.wiki`, in any case, to any name yields a wiki name. */
  lemma WikiSuffixMakesWiki(stem: string, suffix: string)
    requires EqualsIgnoringCase(suffix, ".wiki")
    ensures IsWikiName(stem + suffix)
  {
    var repo := stem + suffix;
    assert repo[|repo| - 5..] == suffix;
    WikiNameIff(repo);
  }

  /** Prefixes a branch name with `refs/heads/` unless it already starts with `refs/`. */
  function NormalizeRef(name: string): (r: string)
    ensures StartsWith(r, RefsPrefix)
    ensures r == name <==> StartsWith(name, RefsPrefix)
    ensures r != name ==> r == HeadsPrefix + name
    ensures EndsWith(r, name)
  {
    if StartsWith(name, RefsPrefix) then name else HeadsPrefix + name
  }

  /** Normalising an already normalised ref changes nothing. */
  lemma NormalizeRefIdempotent(name: string)
    ensures NormalizeRef(NormalizeRef(name)) == NormalizeRef(name)
  {
  }

  /** A bare branch name gains the heads prefix; a tag ref passes through. */
  lemma NormalizeRefExamples()
    ensures NormalizeRef("main") == "refs/heads/main"
    ensures NormalizeRef("refs/tags/v1") == "refs/tags/v1"
  {
  }
}
