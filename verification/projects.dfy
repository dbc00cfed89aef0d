/**
 * The rules of `POST /api/projects` that decide how a project is saved:
 * the version check, the slug it is saved under and the summary of the
 * version record.
 *
 * The projects an owner already has are a finite set of slugs, in place of
 * the database lookups; the output of `slugify` and the clock reading are
 * inputs.
 */
module Projects {
  import opened Wrappers
  import opened JsText

  // ---------------------------------------------------------------------------
  // Decimal numerals
  // ---------------------------------------------------------------------------

  /** An ASCII digit, as `\d` matches it. */
  predicate IsDigit(c: char) {
    '0' <= c <= '9'
  }

  /** A non-empty run of ASCII digits (`\d+`). */
  predicate IsDigits(s: string) {
    |s| > 0 && forall i :: 0 <= i < |s| ==> IsDigit(s[i])
  }

  function DigitChar(d: nat): (c: char)
    requires d < 10
    ensures IsDigit(c)
  {
    ('0' as int + d) as char
  }

  /** A number written in decimal, as a template literal writes it. */
  function NatToString(n: nat): (s: string)
    ensures IsDigits(s)
    decreases n
  {
    if n < 10 then [DigitChar(n)]
    else NatToString(n / 10) + [DigitChar(n % 10)]
  }

  /** The value of a run of decimal digits. */
  function DigitsValue(s: string): nat
    requires forall i :: 0 <= i < |s| ==> IsDigit(s[i])
    decreases |s|
  {
    if s == [] then 0
    else
      assert IsDigit(s[|s| - 1]);
      DigitsValue(s[..|s| - 1]) * 10 + (s[|s| - 1] as int - '0' as int)
  }

  /** Reading back the decimal numeral of `n` gives `n`. */
  lemma {:induction false} NatToStringRoundTrip(n: nat)
    ensures DigitsValue(NatToString(n)) == n
    decreases n
  {
    var s := NatToString(n);
    if n >= 10 {
      NatToStringRoundTrip(n / 10);
      assert s[..|s| - 1] == NatToString(n / 10);
    }
  }

  /** Different numbers have different numerals. */
  lemma NatToStringInjective(a: nat, b: nat)
    requires NatToString(a) == NatToString(b)
    ensures a == b
  {
    NatToStringRoundTrip(a);
    NatToStringRoundTrip(b);
  }

  // ---------------------------------------------------------------------------
  // ensureUniqueSlug
  // ---------------------------------------------------------------------------

  /** The `k`-th slug the search tries: `base` itself, then `base-1`, `base-2`, and so on. */
  function Probe(base: string, k: nat): (slug: string)
    ensures k == 0 ==> slug == base
    ensures k > 0 ==> |slug| > |base| + 1 && slug[..|base|] == base && slug[|base|] == '-'
  {
    if k == 0 then base else base + "-" + NatToString(k)
  }

  /** Different attempts try different slugs. */
  lemma ProbeInjective(base: string, j: nat, k: nat)
    requires Probe(base, j) == Probe(base, k)
    ensures j == k
  {
    if j > 0 && k > 0 {
      var n := |base| + 1;
      assert Probe(base, j)[n..] == NatToString(j);
      assert Probe(base, k)[n..] == NatToString(k);
      NatToStringInjective(j, k);
    }
  }

  /** The slugs of the first `n` attempts. */
  function ProbesBelow(base: string, n: nat): set<string>
    decreases n
  {
    if n == 0 then {} else ProbesBelow(base, n - 1) + {Probe(base, n - 1)}
  }

  /** The slug of attempt `k` is among the first `n` attempts exactly when `k < n`. */
  lemma {:induction false} ProbesBelowHas(base: string, n: nat, k: nat)
    ensures Probe(base, k) in ProbesBelow(base, n) <==> k < n
    decreases n
  {
    if n > 0 {
      ProbesBelowHas(base, n - 1, k);
      if Probe(base, k) == Probe(base, n - 1) {
        ProbeInjective(base, k, n - 1);
      }
    }
  }

  /** The first `n` attempts try `n` different slugs. */
  lemma {:induction false} ProbesBelowCard(base: string, n: nat)
    ensures |ProbesBelow(base, n)| == n
    decreases n
  {
    if n > 0 {
      ProbesBelowCard(base, n - 1);
      ProbesBelowHas(base, n - 1, n - 1);
    }
  }

  /** A subset is no larger than the set that holds it. */
  lemma SubsetCard<T>(a: set<T>, b: set<T>)
    requires a <= b
    ensures |a| <= |b|
  {
    assert b == a + (b - a);
    assert a * (b - a) == {};
  }

  /**
   * `ensureUniqueSlug`: try `base`, then `base-1`, `base-2`, … and return
   * the first slug the owner does not have yet. Every attempt that fails
   * hits a different taken slug, so there are at most `|taken| + 1`
   * attempts; `attempts` is the number of taken slugs passed over.
   */
  method EnsureUniqueSlug(taken: set<string>, base: string) returns (slug: string, attempts: nat)
    ensures slug !in taken
    ensures attempts <= |taken|
    ensures slug == Probe(base, attempts)
    ensures forall j :: 0 <= j < attempts ==> Probe(base, j) in taken
    ensures base !in taken ==> slug == base
  {
    var candidate := base;
    var suffix: nat := 1;
    while true
      invariant 1 <= suffix <= |taken| + 1
      invariant candidate == Probe(base, suffix - 1)
      invariant ProbesBelow(base, suffix - 1) <= taken
      decreases |taken| + 1 - suffix
    {
      if candidate !in taken {
        slug, attempts := candidate, suffix - 1;
        forall j | 0 <= j < attempts
          ensures Probe(base, j) in taken
        {
          ProbesBelowHas(base, attempts, j);
        }
        return;
      }
      assert ProbesBelow(base, suffix) <= taken;
      ProbesBelowCard(base, suffix);
      SubsetCard(ProbesBelow(base, suffix), taken);
      candidate := base + "-" + NatToString(suffix);
      suffix := suffix + 1;
    }
  }

  // ---------------------------------------------------------------------------
  // The slug a project is saved under
  // ---------------------------------------------------------------------------

  /**
   * `baseSlug`: the requested slug when it trims to something, else the
   * slugified title when that is non-empty, else `project-` and the clock
   * reading.
   */
  function BaseSlug(slug: Option<string>, slugified: string, now: nat): (base: string)
    ensures base != []
  {
    if slug.Some? && Trim(slug.value) != [] then Trim(slug.value)
    else if slugified != [] then slugified
    else "project-" + NatToString(now)
  }

  /**
   * A requested slug that is not blank wins, trimmed; otherwise the
   * slugified title when non-empty; otherwise `project-` followed by the
   * decimal numeral of the clock reading.
   */
  lemma BaseSlugChoice(slug: Option<string>, slugified: string, now: nat)
    ensures slug.Some? && !IsBlank(slug.value) ==> BaseSlug(slug, slugified, now) == Trim(slug.value)
    ensures (slug.None? || IsBlank(slug.value)) && slugified != [] ==> BaseSlug(slug, slugified, now) == slugified
    ensures (slug.None? || IsBlank(slug.value)) && slugified == [] ==>
      var base := BaseSlug(slug, slugified, now);
      && StartsWith(base, "project-")
      && IsDigits(base[|"project-"|..])
      && DigitsValue(base[|"project-"|..]) == now
  {
    if slug.Some? {
      TrimEmptyIffBlank(slug.value);
    }
    var fallback := "project-" + NatToString(now);
    assert fallback[..|"project-"|] == "project-";
    assert fallback[|"project-"|..] == NatToString(now);
    NatToStringRoundTrip(now);
  }

  /**
   * The slug a project is saved under. The owner's existing project with
   * the base slug is updated (`reused`); otherwise the search for a free
   * slug runs. As the existing project is looked up by the base slug
   * itself, the search only ever starts from a free slug, so a project is
   * always saved under its base slug.
   */
  method SaveSlug(taken: set<string>, base: string) returns (slug: string, reused: bool)
    ensures reused <==> base in taken
    ensures !reused ==> slug !in taken
    ensures slug == base
  {
    if base in taken {
      return base, true;
    }
    var attempts;
    slug, attempts := EnsureUniqueSlug(taken, base);
    reused := false;
  }

  // ---------------------------------------------------------------------------
  // Version check and summary
  // ---------------------------------------------------------------------------

  /**
   * What `^\d+\.\d+\.\d+$` accepts: three non-empty runs of digits
   * joined by two dots, nothing before or after.
   */
  ghost predicate MatchesSemver(v: string) {
    exists major: string, minor: string, patch: string ::
      && IsDigits(major) && IsDigits(minor) && IsDigits(patch)
      && v == major + ['.'] + (minor + ['.'] + patch)
  }

  /** The check computed by splitting on dots: exactly three parts, each a run of digits. */
  predicate IsSemver(v: string) {
    var parts := Split(v, '.');
    |parts| == 3 && IsDigits(parts[0]) && IsDigits(parts[1]) && IsDigits(parts[2])
  }

  /** A run of digits holds no dot. */
  lemma DigitsHaveNoDot(s: string)
    requires IsDigits(s)
    ensures forall i :: 0 <= i < |s| ==> s[i] != '.'
  {
  }

  /** Three parts joined by a separator. */
  lemma JoinThree(a: string, b: string, c: string, sep: char)
    ensures Join([a, b, c], sep) == a + [sep] + (b + [sep] + c)
  {
    assert [a, b, c][1..] == [b, c];
    assert [b, c][1..] == [c];
    assert Join([c], sep) == c;
    assert Join([b, c], sep) == b + [sep] + c;
  }

  /** What the split-based check accepts, the pattern accepts. */
  lemma IsSemverSound(v: string)
    requires IsSemver(v)
    ensures MatchesSemver(v)
  {
    var parts := Split(v, '.');
    var a, b, c := parts[0], parts[1], parts[2];
    assert parts == [a, b, c];
    SplitJoin(v, '.');
    JoinThree(a, b, c, '.');
    assert IsDigits(a) && IsDigits(b) && IsDigits(c) && v == a + ['.'] + (b + ['.'] + c);
  }

  /** What the pattern accepts, the split-based check accepts. */
  lemma IsSemverComplete(v: string)
    requires MatchesSemver(v)
    ensures IsSemver(v)
  {
    var a: string, b: string, c: string :|
      && IsDigits(a) && IsDigits(b) && IsDigits(c)
      && v == a + ['.'] + (b + ['.'] + c);
    DigitsHaveNoDot(a);
    DigitsHaveNoDot(b);
    DigitsHaveNoDot(c);
    SplitHead(a, '.', b + ['.'] + c);
    SplitHead(b, '.', c);
    SplitNoSep(c, '.');
    assert Split(v, '.') == [a] + ([b] + [c]);
  }

  /** The split-based check accepts exactly what the pattern accepts. */
  lemma IsSemverMatches(v: string)
    ensures IsSemver(v) <==> MatchesSemver(v)
  {
    if IsSemver(v) {
      IsSemverSound(v);
    }
    if MatchesSemver(v) {
      IsSemverComplete(v);
    }
  }

  const SemverMessage: string := "Version must follow semver (e.g. 1.0.0)."

  /**
   * The `version` field of the request schema: absent is fine; a given
   * version is trimmed and must then match the pattern.
   */
  function ValidateVersion(version: Option<string>): (r: Result<Option<string>, string>)
  {
    match version
    case None => Success(None)
    case Some(v) =>
      var t := Trim(v);
      if IsSemver(t) then Success(Some(t)) else Failure(SemverMessage)
  }

  /**
   * A version is accepted exactly when it matches the pattern after
   * trimming, and what is kept is the trimmed text, which neither starts
   * nor ends with whitespace.
   */
  lemma ValidateVersionAccepts(v: string)
    ensures ValidateVersion(Some(v)).Success? <==> MatchesSemver(Trim(v))
    ensures ValidateVersion(Some(v)).Success? ==>
      && ValidateVersion(Some(v)).value == Some(Trim(v))
      && !IsJsWhitespace(Trim(v)[0]) && !IsJsWhitespace(Trim(v)[|Trim(v)| - 1])
    ensures ValidateVersion(Some(v)).Failure? ==> ValidateVersion(Some(v)).error == SemverMessage
  {
    IsSemverMatches(Trim(v));
    TrimEdgesNotBlank(v);
  }

  /**
   * The summary of the version record: the version when one was given,
   * else the last prompt, else "Updated " and the title.
   */
  function Summary(version: Option<string>, prompts: seq<string>, title: string): (s: string)
  {
    if Truthy(version) then "Version " + version.value
    else if |prompts| > 0 then prompts[|prompts| - 1]
    else "Updated " + title
  }

  /**
   * For a request that passed validation: a given version yields
   * "Version " and the trimmed version; without one, the last prompt, or
   * "Updated " and the title when there are no prompts.
   */
  lemma SummaryOfValidated(version: Option<string>, prompts: seq<string>, title: string)
    requires ValidateVersion(version).Success?
    ensures var kept := ValidateVersion(version).value;
      var s := Summary(kept, prompts, title);
      && (version.Some? ==> kept.Some? && s == "Version " + Trim(version.value) && MatchesSemver(Trim(version.value)))
      && (version.None? && |prompts| > 0 ==> s == prompts[|prompts| - 1])
      && (version.None? && |prompts| == 0 ==> s == "Updated " + title)
  {
    if version.Some? {
      ValidateVersionAccepts(version.value);
      assert IsSemver(Trim(version.value));
    }
  }
}
