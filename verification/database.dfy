/**
 * The organisation-name normaliser of the service's database layer: the pure
 * function that turns an organisation name into the name of the collection
 * (tenant partition) holding that organisation's documents.
 *
 * The normalisation is modelled step by step in `get_org_collection_name`'s order
 * (lower-casing is ASCII only, see `Text.Lower`): lower-case, strip
 * whitespace, replace every maximal run of characters outside `[a-z0-9]` by
 * one `_`, strip `_` from both ends, substitute `default` for an empty
 * result, prefix `org_`.
 */
module Database {
  import opened Text

  /** The regular-expression class `[a-z0-9]`. */
  predicate InClass(c: char) {
    'a' <= c <= 'z' || '0' <= c <= '9'
  }

  predicate NotInClass(c: char) {
    !InClass(c)
  }

  const CollectionPrefix: string := "org_"
  const EmptyNameSuffix: string := "default"

  /** `re.sub(r'[^a-z0-9]+', '_', s)`: each maximal run outside the class becomes one `_`. */
  function ReplaceRuns(s: string): string
    decreases |s|
  {
    if s == [] then []
    else if InClass(s[0]) then [s[0]] + ReplaceRuns(s[1..])
    else "_" + ReplaceRuns(DropWhile(s[1..], NotInClass))
  }

  /**
   * Everything the normaliser computes after the `org_` prefix. It is never
   * empty, holds only `[a-z0-9_]`, has no `_` at either end and never two `_`
   * in a row.
   */
  function Suffix(orgName: string): (r: string)
    ensures WellFormedSuffix(r)
  {
    var normalized := StripWith(ReplaceRuns(Strip(Lower(orgName))), IsUnderscore);
    ReplaceRunsSeparated(Strip(Lower(orgName)));
    StripSeparated(ReplaceRuns(Strip(Lower(orgName))));
    if normalized == [] then EmptyNameSuffix else normalized
  }

  /** The collection name of an organisation. */
  function OrgCollectionName(orgName: string): (r: string)
    ensures |r| > |CollectionPrefix| && r[..|CollectionPrefix|] == CollectionPrefix
  {
    CollectionPrefix + Suffix(orgName)
  }

  /** Only class characters and `_`, and never two `_` in a row. */
  predicate Separated(t: string) {
    && (forall i :: 0 <= i < |t| ==> InClass(t[i]) || t[i] == '_')
    && (forall i :: 0 <= i < |t| - 1 ==> t[i] == '_' ==> t[i + 1] != '_')
  }

  /** The shape every suffix has: non-empty, separated, no `_` at either end. */
  predicate WellFormedSuffix(t: string) {
    t != [] && Separated(t) && t[0] != '_' && t[|t| - 1] != '_'
  }

  lemma {:induction false} ReplaceRunsSeparated(s: string)
    ensures Separated(ReplaceRuns(s))
    ensures ReplaceRuns(s) == [] <==> s == []
    ensures s != [] ==> (ReplaceRuns(s)[0] == '_' <==> !InClass(s[0]))
    decreases |s|
  {
    if s == [] {
    } else if InClass(s[0]) {
      ReplaceRunsSeparated(s[1..]);
    } else {
      var rest := DropWhile(s[1..], NotInClass);
      ReplaceRunsSeparated(rest);
    }
  }

  lemma {:induction false} ReplaceRunsKeepsClass(s: string)
    ensures Filter(ReplaceRuns(s), InClass) == Filter(s, InClass)
    decreases |s|
  {
    if s == [] {
    } else if InClass(s[0]) {
      ReplaceRunsKeepsClass(s[1..]);
      assert ([s[0]] + ReplaceRuns(s[1..]))[1..] == ReplaceRuns(s[1..]);
    } else {
      var rest := DropWhile(s[1..], NotInClass);
      ReplaceRunsKeepsClass(rest);
      FilterIgnoresPrefix(s[1..], NotInClass, InClass);
      assert ("_" + ReplaceRuns(rest))[1..] == ReplaceRuns(rest);
    }
  }

  /** Each character outside the class replaced by `_`, one for one. */
  function Underscored(t: string): (r: string)
    ensures |r| == |t|
  {
    seq(|t|, i requires 0 <= i < |t| => if InClass(t[i]) then t[i] else '_')
  }

  /** No two characters outside the class stand next to each other. */
  predicate SingleGaps(t: string) {
    forall i :: 0 <= i < |t| - 1 ==> InClass(t[i]) || InClass(t[i + 1])
  }

  /** Where every run outside the class has length one, the replacement is character-wise. */
  lemma {:induction false} ReplaceRunsOfSingleGaps(t: string)
    requires SingleGaps(t)
    ensures ReplaceRuns(t) == Underscored(t)
    decreases |t|
  {
    if t != [] {
      assert SingleGaps(t[1..]);
      ReplaceRunsOfSingleGaps(t[1..]);
      if !InClass(t[0]) {
        assert t[1..] != [] ==> InClass(t[1]);
        assert DropWhile(t[1..], NotInClass) == t[1..];
      }
      assert Underscored(t) == [Underscored(t)[0]] + Underscored(t[1..]);
    }
  }

  /** A separated string is left unchanged by the run replacement. */
  lemma ReplaceRunsFixesSeparated(t: string)
    requires Separated(t)
    ensures ReplaceRuns(t) == t
  {
    ReplaceRunsOfSingleGaps(t);
  }

  lemma SeparatedSlice(t: string, a: nat, b: nat)
    requires Separated(t) && a <= b <= |t|
    ensures Separated(t[a..b])
  {
    var u := t[a..b];
    forall i | 0 <= i < |u| - 1
      ensures u[i] == '_' ==> u[i + 1] != '_'
    {
      assert u[i] == t[a + i] && u[i + 1] == t[a + i + 1];
    }
  }

  /** Stripping `_` from a separated string leaves a well-formed suffix or nothing. */
  lemma StripSeparated(y: string)
    requires Separated(y)
    ensures var z := StripWith(y, IsUnderscore); z == [] || WellFormedSuffix(z)
  {
    var d := DropWhile(y, IsUnderscore);
    SeparatedSlice(y, |y| - |d|, |y|);
    var z := DropLastWhile(d, IsUnderscore);
    SeparatedSlice(d, 0, |z|);
  }

  lemma DefaultWellFormed()
    ensures WellFormedSuffix(EmptyNameSuffix)
  {
  }

  /** Neither whitespace nor `_` is in the class. */
  lemma ClassExcludesSeparators()
    ensures forall c :: IsSpace(c) ==> !InClass(c)
    ensures forall c :: IsUnderscore(c) ==> !InClass(c)
  {
  }

  /**
   * The stages of the normaliser before the `default` substitution: the
   * result is empty or of the suffix shape, and keeps exactly the class
   * characters of the lower-cased name.
   */
  lemma NormalizedShape(orgName: string)
    ensures var z := StripWith(ReplaceRuns(Strip(Lower(orgName))), IsUnderscore);
      && (z == [] || WellFormedSuffix(z))
      && (z == [] <==> Filter(Lower(orgName), InClass) == [])
      && Filter(z, NotUnderscore) == Filter(Lower(orgName), InClass)
  {
    var x := Strip(Lower(orgName));
    var y := ReplaceRuns(x);
    var z := StripWith(y, IsUnderscore);
    ClassExcludesSeparators();
    FilterIgnoresStripped(Lower(orgName), IsSpace, InClass);
    ReplaceRunsKeepsClass(x);
    FilterIgnoresStripped(y, IsUnderscore, InClass);
    assert Filter(z, InClass) == Filter(Lower(orgName), InClass);
    ReplaceRunsSeparated(x);
    StripSeparated(y);
    if z != [] {
      assert InClass(z[0]);
      assert Filter(z, InClass) != [];
    }
    SeparatedFilters(z);
  }

  /**
   * The suffix keeps exactly the class characters of the lower-cased name, in
   * order, separated by underscores; with no class character at all it is
   * `default`.
   */
  lemma SuffixKeepsAlphanumerics(orgName: string)
    ensures Filter(Lower(orgName), InClass) == [] ==> Suffix(orgName) == EmptyNameSuffix
    ensures Filter(Lower(orgName), InClass) != [] ==>
      Filter(Suffix(orgName), NotUnderscore) == Filter(Lower(orgName), InClass)
  {
    NormalizedShape(orgName);
  }

  /** On a separated string, dropping `_` and keeping the class are the same filter. */
  lemma {:induction false} SeparatedFilters(t: string)
    requires Separated(t)
    ensures Filter(t, NotUnderscore) == Filter(t, InClass)
  {
    if t != [] {
      assert Separated(t[1..]);
      SeparatedFilters(t[1..]);
    }
  }

  /** ASCII case and surrounding whitespace do not affect the collection name. */
  lemma CollectionNameIgnoresCaseAndPadding(orgName: string)
    ensures OrgCollectionName(Lower(orgName)) == OrgCollectionName(orgName)
    ensures OrgCollectionName(Strip(orgName)) == OrgCollectionName(orgName)
  {
    LowerIdempotent(orgName);
    LowerStripCommute(orgName);
    StripIdempotent(Lower(orgName));
  }

  /** A well-formed suffix is a fixed point of the suffix computation. */
  lemma WellFormedSuffixFixed(t: string)
    requires WellFormedSuffix(t)
    ensures Suffix(t) == t
  {
    assert Lower(t) == t by {
      assert forall i :: 0 <= i < |t| ==> LowerChar(t[i]) == t[i];
    }
    assert !IsSpace(t[0]) && !IsSpace(t[|t| - 1]);
    StripWithKeeps(t, IsSpace);
    ReplaceRunsFixesSeparated(t);
    StripWithKeeps(t, IsUnderscore);
  }

  /** The suffix transformation alone is idempotent. */
  lemma SuffixIdempotent(orgName: string)
    ensures Suffix(Suffix(orgName)) == Suffix(orgName)
  {
    WellFormedSuffixFixed(Suffix(orgName));
  }

  /** Prefixing a well-formed suffix with `org_` keeps it well formed. */
  lemma PrefixedWellFormed(x: string)
    requires WellFormedSuffix(x)
    ensures WellFormedSuffix(CollectionPrefix + x)
  {
    var t := CollectionPrefix + x;
    forall i | 0 <= i < |t|
      ensures InClass(t[i]) || t[i] == '_'
    {
      if i >= 4 {
        assert t[i] == x[i - 4];
      }
    }
    forall i | 0 <= i < |t| - 1
      ensures t[i] == '_' ==> t[i + 1] != '_'
    {
      if i >= 4 {
        assert t[i] == x[i - 4] && t[i + 1] == x[i - 3];
      }
    }
    assert t[|t| - 1] == x[|x| - 1];
  }

  /** The whole normaliser is not idempotent: applied twice it stacks the prefix. */
  lemma CollectionNameStacksPrefix(orgName: string)
    ensures OrgCollectionName(OrgCollectionName(orgName)) == CollectionPrefix + CollectionPrefix + Suffix(orgName)
    ensures OrgCollectionName(OrgCollectionName(orgName)) != OrgCollectionName(orgName)
  {
    var suffix := Suffix(orgName);
    assert OrgCollectionName(orgName) == CollectionPrefix + suffix;
    PrefixTwice(suffix);
    assert |CollectionPrefix + CollectionPrefix + suffix| != |CollectionPrefix + suffix|;
  }

  /** The collection name of `org_` followed by a suffix is `org_org_` followed by it. */
  lemma PrefixTwice(suffix: string)
    requires WellFormedSuffix(suffix)
    ensures OrgCollectionName(CollectionPrefix + suffix) == CollectionPrefix + CollectionPrefix + suffix
  {
    var once := CollectionPrefix + suffix;
    assert WellFormedSuffix(once) by { PrefixedWellFormed(suffix); }
    assert OrgCollectionName(once) == CollectionPrefix + once by { CollectionNameOfWellFormed(once); }
    assert CollectionPrefix + once == CollectionPrefix + CollectionPrefix + suffix;
  }

  /** A well-formed suffix names the collection of `org_` followed by itself. */
  lemma CollectionNameOfWellFormed(t: string)
    requires WellFormedSuffix(t)
    ensures OrgCollectionName(t) == CollectionPrefix + t
  {
    WellFormedSuffixFixed(t);
  }

  /** The empty name has the collection `org_default`. */
  lemma EmptyNameCollection()
    ensures OrgCollectionName([]) == CollectionPrefix + EmptyNameSuffix
  {
    assert Lower([]) == [];
    SuffixKeepsAlphanumerics([]);
  }

  /** Different names can share a collection: the normaliser is not injective. */
  lemma CollectionNameNotInjective()
    ensures OrgCollectionName("Acme Corp") == OrgCollectionName("acme-corp")
  {
    AcmeCorpSuffix();
    HyphenatedAcmeCorpSuffix();
    UnderscoredLiterals();
    CollectionNameFromSuffix("Acme Corp", "acme_corp");
    CollectionNameFromSuffix("acme-corp", "acme_corp");
  }

  /** The collection of the organisation "Acme Corp". */
  lemma AcmeCorpCollection()
    ensures OrgCollectionName("Acme Corp") == CollectionPrefix + "acme_corp"
  {
    AcmeCorpSuffix();
    UnderscoredLiterals();
    CollectionNameFromSuffix("Acme Corp", "acme_corp");
  }

  /** The collection of the organisation "Acme Inc". */
  lemma AcmeIncCollection()
    ensures OrgCollectionName("Acme Inc") == CollectionPrefix + "acme_inc"
  {
    AcmeIncSuffix();
    UnderscoredLiterals();
    CollectionNameFromSuffix("Acme Inc", "acme_inc");
  }

  lemma CollectionNameFromSuffix(orgName: string, suffix: string)
    requires Suffix(orgName) == suffix
    ensures OrgCollectionName(orgName) == CollectionPrefix + suffix
  {
  }

  lemma AcmeCorpSuffix()
    ensures Suffix("Acme Corp") == Underscored("acme corp")
  {
    var a := "Acme Corp";
    assert Lower(a) == "acme corp" by {
      assert forall i | 0 <= i < |a| :: Lower(a)[i] == LowerChar(a[i]);
    }
    assert SingleGaps("acme corp");
    SingleWordGapSuffix(a, "acme corp");
  }

  lemma HyphenatedAcmeCorpSuffix()
    ensures Suffix("acme-corp") == Underscored("acme-corp")
  {
    var a := "acme-corp";
    assert Lower(a) == a by {
      assert forall i | 0 <= i < |a| :: Lower(a)[i] == LowerChar(a[i]);
    }
    assert SingleGaps(a);
    SingleWordGapSuffix(a, a);
  }

  lemma AcmeIncSuffix()
    ensures Suffix("Acme Inc") == Underscored("acme inc")
  {
    var a := "Acme Inc";
    assert Lower(a) == "acme inc" by {
      assert forall i | 0 <= i < |a| :: Lower(a)[i] == LowerChar(a[i]);
    }
    assert SingleGaps("acme inc");
    SingleWordGapSuffix(a, "acme inc");
  }

  lemma UnderscoredLiterals()
    ensures Underscored("acme corp") == "acme_corp"
    ensures Underscored("acme-corp") == "acme_corp"
    ensures Underscored("acme inc") == "acme_inc"
  {
  }

  /**
   * A name whose lower-cased form starts and ends with class characters and
   * has only single separators maps separator for separator to `_`.
   */
  lemma SingleWordGapSuffix(orgName: string, lowered: string)
    requires Lower(orgName) == lowered && lowered != []
    requires InClass(lowered[0]) && InClass(lowered[|lowered| - 1]) && SingleGaps(lowered)
    ensures Suffix(orgName) == Underscored(lowered)
  {
    assert !IsSpace(lowered[0]) && !IsSpace(lowered[|lowered| - 1]);
    StripWithKeeps(lowered, IsSpace);
    ReplaceRunsOfSingleGaps(lowered);
    var u := Underscored(lowered);
    assert u[0] == lowered[0] && u[|u| - 1] == lowered[|lowered| - 1];
    StripWithKeeps(u, IsUnderscore);
  }
}
