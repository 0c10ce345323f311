/** The slug rule of the Store model's pre-save hook.

    A slug is derived from the store name by an external normaliser,
    modelled as a function-valued parameter `slugify`. When other stores
    already hold the same base slug, or the base followed by a hyphen and a
    number, the new slug gets the suffix `-(k+1)`, where k is the number of
    such stores. */
module Slugs {
  import opened Common

  /** ASCII case folding, as a case-insensitive regular expression applies it
      to ASCII letters. */
  function Lower(c: char): char {
    if 'A' <= c <= 'Z' then (c as int + 32) as char else c
  }

  function LowerStr(s: string): (r: string)
    ensures |r| == |s|
  {
    if s == [] then [] else [Lower(s[0])] + LowerStr(s[1..])
  }

  /** Lower-casing a string lower-cases each character in place. */
  lemma {:induction false} LowerStrAt(s: string)
    ensures forall i :: 0 <= i < |s| ==> LowerStr(s)[i] == Lower(s[i])
  {
    if s != [] {
      LowerStrAt(s[1..]);
      assert forall i :: 1 <= i < |s| ==> s[i] == s[1..][i - 1];
    }
  }

  predicate IsDigit(c: char) { '0' <= c <= '9' }

  predicate AllDigits(s: string) {
    forall i :: 0 <= i < |s| ==> IsDigit(s[i])
  }

  /** The committed slug `slug` matches the pattern `^(base)((-[0-9]*$)?)$`
      with the case-insensitive flag: it is `base`, or `base` followed by a
      hyphen and zero or more digits, ignoring the case of letters. */
  predicate Matches(slug: string, base: string) {
    var s, b := LowerStr(slug), LowerStr(base);
    s == b || (|s| > |b| && s[..|b|] == b && s[|b|] == '-' && AllDigits(s[|b| + 1..]))
  }

  /** The hook's query condition on the `slug` path, for one base. */
  function MatchesBase(base: string): string -> bool {
    (s: string) => Matches(s, base)
  }

  /** The committed slugs the hook's query returns, in collection order. */
  function MatchingSlugs(committed: seq<string>, base: string): (r: seq<string>)
    ensures forall s :: s in r <==> s in committed && Matches(s, base)
  {
    Filter(committed, MatchesBase(base))
  }

  /** The query returns every matching slug as often as it is committed. */
  lemma MatchingSlugsCounts(committed: seq<string>, base: string)
    ensures forall s :: multiset(MatchingSlugs(committed, base))[s]
                        == if Matches(s, base) then multiset(committed)[s] else 0
  {
    FilterCounts(committed, MatchesBase(base));
  }

  function CountMatches(committed: seq<string>, base: string): nat {
    |MatchingSlugs(committed, base)|
  }

  /** Digit character of a value below ten. */
  function DigitChar(d: nat): char
    requires d < 10
  {
    ('0' as int + d) as char
  }

  /** The decimal notation JavaScript uses when it puts a number into a
      template string. */
  function DecimalString(n: nat): (r: string)
    ensures |r| > 0 && AllDigits(r)
  {
    if n < 10 then [DigitChar(n)] else DecimalString(n / 10) + [DigitChar(n % 10)]
  }

  /** The value of a string of decimal digits. */
  function DecimalValue(s: string): nat
    requires AllDigits(s)
  {
    if s == [] then 0
    else DecimalValue(s[..|s| - 1]) * 10 + (s[|s| - 1] as int - '0' as int)
  }

  /** Reading back a number's decimal notation gives the number. */
  lemma {:induction false} DecimalRoundTrip(n: nat)
    ensures DecimalValue(DecimalString(n)) == n
  {
    var s := DecimalString(n);
    if n >= 10 {
      DecimalRoundTrip(n / 10);
      assert s[..|s| - 1] == DecimalString(n / 10);
    } else {
      assert s[..|s| - 1] == [];
    }
  }

  /** Different numbers have different decimal notations. */
  lemma DecimalInjective(a: nat, b: nat)
    requires DecimalString(a) == DecimalString(b)
    ensures a == b
  {
    DecimalRoundTrip(a);
    DecimalRoundTrip(b);
  }

  /** The slug the hook assigns: the base when no committed slug matches,
      and otherwise the base with the suffix `-(k+1)`. */
  function ResolveSlug(base: string, committed: seq<string>): (r: string)
    ensures r == base <==> CountMatches(committed, base) == 0
  {
    var k := CountMatches(committed, base);
    if k == 0 then base else base + "-" + DecimalString(k + 1)
  }

  /** The resolved slug belongs to its base's family, so a later save with
      the same base counts it; when it is not the base itself, its suffix
      reads back as the number of matches plus one. */
  lemma ResolvedSlugShape(base: string, committed: seq<string>)
    ensures Matches(ResolveSlug(base, committed), base)
    ensures var r := ResolveSlug(base, committed);
            r != base ==> |r| > |base| + 1 && r[..|base| + 1] == base + "-"
                          && AllDigits(r[|base| + 1..])
                          && DecimalValue(r[|base| + 1..]) == CountMatches(committed, base) + 1
  {
    var k := CountMatches(committed, base);
    var r := ResolveSlug(base, committed);
    if k == 0 {
      MatchesItself(base);
    } else {
      assert r[|base| + 1..] == DecimalString(k + 1);
      assert r[..|base| + 1] == base + "-";
      DecimalRoundTrip(k + 1);
      SuffixedMatches(base, DecimalString(k + 1));
    }
  }

  lemma MatchesItself(base: string)
    ensures Matches(base, base)
  {
  }

  /** Lower-casing leaves a hyphen and digits alone. */
  lemma LowerSuffixed(base: string, digits: string)
    requires AllDigits(digits)
    ensures LowerStr(base + "-" + digits) == LowerStr(base) + "-" + digits
  {
    var s := base + "-" + digits;
    var l := LowerStr(base) + "-" + digits;
    LowerStrAt(s);
    LowerStrAt(base);
    assert |LowerStr(s)| == |l|;
    forall i | 0 <= i < |s| ensures LowerStr(s)[i] == l[i] {
      if i > |base| {
        assert s[i] == digits[i - |base| - 1];
        assert IsDigit(digits[i - |base| - 1]);
      }
    }
  }

  /** The base followed by a hyphen and digits matches the base. */
  lemma SuffixedMatches(base: string, digits: string)
    requires AllDigits(digits)
    ensures Matches(base + "-" + digits, base)
  {
    LowerSuffixed(base, digits);
    var b := LowerStr(base);
    var s := b + "-" + digits;
    assert s[..|b|] == b;
    assert s[|b| + 1..] == digits;
  }

  /** The slug the m-th of several stores with the same base receives when
      they are saved one after the other: `base`, `base-2`, `base-3`, ... */
  function NthSlug(base: string, m: nat): string
    requires m >= 1
  {
    if m == 1 then base else base + "-" + DecimalString(m)
  }

  /** The slugs `base`, `base-2`, ..., `base-k`. */
  predicate InFamily(s: string, base: string, k: nat) {
    exists m :: 1 <= m <= k && s == NthSlug(base, m)
  }

  lemma NthSlugInjective(base: string, m1: nat, m2: nat)
    requires m1 >= 1 && m2 >= 1
    requires NthSlug(base, m1) == NthSlug(base, m2)
    ensures m1 == m2
  {
    if m1 > 1 && m2 > 1 {
      var s := NthSlug(base, m1);
      assert s[|base| + 1..] == DecimalString(m1);
      assert NthSlug(base, m2)[|base| + 1..] == DecimalString(m2);
      DecimalInjective(m1, m2);
    }
  }

  /** When every committed slug that matches the base is one of `base`,
      `base-2`, ..., `base-k` (k being the number of matches), the resolved
      slug is not among the committed ones: the sequential uniqueness the
      hook is written for. */
  lemma ResolvedSlugIsFresh(base: string, committed: seq<string>)
    requires forall s :: s in committed && Matches(s, base) ==> InFamily(s, base, CountMatches(committed, base))
    ensures ResolveSlug(base, committed) !in committed
  {
    var k := CountMatches(committed, base);
    var r := ResolveSlug(base, committed);
    if r in committed {
      ResolvedSlugShape(base, committed);
      assert InFamily(r, base, k);
      var m :| 1 <= m <= k && r == NthSlug(base, m);
      assert r == NthSlug(base, k + 1);
      NthSlugInjective(base, m, k + 1);
      assert false;
    }
  }

  /** Without that hypothesis the slug can collide, and creations alone
      break it: a store with the base `base` is saved and gets `base`; a
      store whose name normalises to `base-3` (for instance "Palace 3" next
      to "Palace") is saved and gets `base-3`, since `base` does not match
      the pattern built from `base-3`; a third store with the base `base`
      then finds two matches and is given `base-3` a second time. */
  lemma SlugCollisionAfterGap(base: string)
    ensures ResolveSlug(base, []) == base
    ensures ResolveSlug(base + "-3", [base]) == base + "-3"
    ensures ResolveSlug(base, [base, base + "-3"]) == base + "-3"
    ensures ResolveSlug(base, [base, base + "-3"]) in [base, base + "-3"]
  {
    var taken := base + "-3";
    assert !Matches(base, taken);
    assert [base][1..] == [];
    assert MatchingSlugs([base], taken) == [];
    MatchesItself(base);
    SuffixedMatches(base, "3");
    assert base + "-" + "3" == taken;
    var c := [base, taken];
    assert c[1..] == [taken] && c[1..][1..] == [];
    assert MatchingSlugs([taken], base) == [taken];
    assert MatchingSlugs(c, base) == [base] + [taken];
    assert DecimalString(3) == "3";
  }

  // ---------------------------------------------------------------------
  // A slug rule that is always fresh
  // ---------------------------------------------------------------------

  /** The number a matching slug carries: 1 for the base itself, otherwise
      the value of the digits after the hyphen. */
  function SuffixValue(slug: string, base: string): nat
    requires Matches(slug, base)
  {
    var s, b := LowerStr(slug), LowerStr(base);
    if s == b then 1 else DecimalValue(s[|b| + 1..])
  }

  /** The largest number any committed slug of the family carries, 0 when
      none matches. */
  function MaxSuffix(committed: seq<string>, base: string): nat {
    if committed == [] then 0
    else
      var last := committed[|committed| - 1];
      Max(MaxSuffix(committed[..|committed| - 1], base),
          if Matches(last, base) then SuffixValue(last, base) else 0)
  }

  /** No committed slug of the family carries a number above the maximum. */
  lemma {:induction false} MaxSuffixBound(committed: seq<string>, base: string)
    ensures forall s :: s in committed && Matches(s, base) ==> SuffixValue(s, base) <= MaxSuffix(committed, base)
  {
    if committed != [] {
      var init := committed[..|committed| - 1];
      MaxSuffixBound(init, base);
      assert committed == init + [committed[|committed| - 1]];
    }
  }

  /** The corrected rule: the base when nothing matches, otherwise the base
      with a suffix one above the largest number in use. */
  function FreshSlug(base: string, committed: seq<string>): string {
    if CountMatches(committed, base) == 0 then base
    else base + "-" + DecimalString(MaxSuffix(committed, base) + 1)
  }

  /** The number the suffixed slug `base-k` carries is k. */
  lemma SuffixValueOfSuffixed(base: string, k: nat)
    ensures Matches(base + "-" + DecimalString(k), base)
    ensures SuffixValue(base + "-" + DecimalString(k), base) == k
  {
    var d := DecimalString(k);
    SuffixedMatches(base, d);
    LowerSuffixed(base, d);
    var b := LowerStr(base);
    assert (b + "-" + d)[|b| + 1..] == d;
    DecimalRoundTrip(k);
  }

  /** The corrected slug is never one already committed, and it still belongs
      to the base's family. */
  lemma FreshSlugIsFresh(base: string, committed: seq<string>)
    ensures FreshSlug(base, committed) !in committed
    ensures Matches(FreshSlug(base, committed), base)
    ensures FreshSlug(base, committed) == base <==> CountMatches(committed, base) == 0
  {
    MatchesItself(base);
    if CountMatches(committed, base) != 0 {
      var k := MaxSuffix(committed, base) + 1;
      SuffixValueOfSuffixed(base, k);
      MaxSuffixBound(committed, base);
    }
  }

  /** On the collection of the collision above, the corrected rule gives
      `base-4`. */
  lemma FreshSlugAfterGap(base: string)
    ensures FreshSlug(base, [base, base + "-3"]) == base + "-4"
  {
    var c := [base, base + "-3"];
    assert CountMatches(c, base) != 0 by {
      MatchesItself(base);
      assert base in MatchingSlugs(c, base);
    }
    assert MaxSuffix([base], base) == 1 by {
      MatchesItself(base);
      MaxSuffixAppend([], base, base);
      assert [] + [base] == [base];
    }
    assert MaxSuffix(c, base) == 3 by {
      SuffixValueOfSuffixed(base, 3);
      assert DecimalString(3) == "3";
      assert base + "-" + DecimalString(3) == base + "-3";
      MaxSuffixAppend([base], base + "-3", base);
      assert [base] + [base + "-3"] == c;
    }
    assert DecimalString(4) == "4";
  }

  /** The maximum grows by one slug at a time. */
  lemma MaxSuffixAppend(c: seq<string>, x: string, base: string)
    ensures MaxSuffix(c + [x], base) == Max(MaxSuffix(c, base), if Matches(x, base) then SuffixValue(x, base) else 0)
  {
    assert (c + [x])[..|c|] == c;
  }

  /** After a run of n saves with the same base, the largest number in use
      is n. */
  lemma MaxSuffixOfRun(committed: seq<string>, base: string, n: nat)
    requires CountMatches(committed, base) == 0
    ensures MaxSuffix(SaveMany(committed, base, n), base) == n
  {
    var d := SaveMany(committed, base, n);
    assert MaxSuffix(d, base) >= n by {
      if n > 0 {
        SaveManyNumbered(committed, base, n, n);
        NthSuffixValue(base, n);
        MaxSuffixBound(d, base);
        assert NthSlug(base, n) in d;
      }
    }
    assert MaxSuffix(d, base) <= n by {
      MaxSuffixAttained(d, base);
      if MaxSuffix(d, base) != 0 {
        var s :| s in d && Matches(s, base) && SuffixValue(s, base) == MaxSuffix(d, base);
        SaveManyFamily(committed, base, n);
        FamilySuffix(s, base, n);
      }
    }
  }

  /** A nonzero maximum is the number of some committed slug. */
  lemma {:induction false} MaxSuffixAttained(c: seq<string>, base: string)
    ensures MaxSuffix(c, base) == 0
            || exists s :: s in c && Matches(s, base) && SuffixValue(s, base) == MaxSuffix(c, base)
  {
    if c != [] {
      var init, last := c[..|c| - 1], c[|c| - 1];
      MaxSuffixAttained(init, base);
      assert c == init + [last];
    }
  }

  /** A slug of the family up to k carries a number of at most k. */
  lemma FamilySuffix(s: string, base: string, k: nat)
    requires InFamily(s, base, k)
    ensures Matches(s, base) && SuffixValue(s, base) <= k
  {
    var m :| 1 <= m <= k && s == NthSlug(base, m);
    NthSuffixValue(base, m);
  }

  /** Where the code as written is right, after a run of saves with the same
      base, the corrected rule gives the same slug. */
  lemma FreshAgreesOnRuns(committed: seq<string>, base: string, n: nat)
    requires CountMatches(committed, base) == 0
    ensures FreshSlug(base, SaveMany(committed, base, n)) == ResolveSlug(base, SaveMany(committed, base, n))
  {
    MaxSuffixOfRun(committed, base, n);
    SaveManyNumbers(committed, base, n);
  }

  /** The slug numbered m carries the number m. */
  lemma NthSuffixValue(base: string, m: nat)
    requires m >= 1
    ensures Matches(NthSlug(base, m), base) && SuffixValue(NthSlug(base, m), base) == m
  {
    if m == 1 {
      MatchesItself(base);
    } else {
      SuffixValueOfSuffixed(base, m);
    }
  }

  /** The committed slugs after n further stores with the same base have
      been saved one after the other. */
  function SaveMany(committed: seq<string>, base: string, n: nat): (r: seq<string>)
    ensures |r| == |committed| + n
  {
    if n == 0 then committed
    else
      var c := SaveMany(committed, base, n - 1);
      c + [ResolveSlug(base, c)]
  }

  lemma CountAppend(c: seq<string>, base: string, x: string)
    ensures CountMatches(c + [x], base) == CountMatches(c, base) + (if Matches(x, base) then 1 else 0)
  {
    FilterAppend(c, [x], MatchesBase(base));
    assert [x][1..] == [];
  }

  /** Saving stores with the same base one after the other, starting from a
      collection where nothing matches, numbers them 1, 2, 3, ...: after n
      saves exactly n committed slugs match, and the n-th save produced
      `NthSlug(base, n)`. */
  lemma {:induction false} SaveManyNumbers(committed: seq<string>, base: string, n: nat)
    requires CountMatches(committed, base) == 0
    ensures CountMatches(SaveMany(committed, base, n), base) == n
    ensures n >= 1 ==> SaveMany(committed, base, n)[|committed| + n - 1] == NthSlug(base, n)
  {
    if n > 0 {
      SaveManyNumbers(committed, base, n - 1);
      SaveStep(committed, base, n);
    }
  }

  /** One more save after n - 1 numbered ones appends the slug numbered n. */
  lemma SaveStep(committed: seq<string>, base: string, n: nat)
    requires n >= 1 && CountMatches(SaveMany(committed, base, n - 1), base) == n - 1
    ensures SaveMany(committed, base, n) == SaveMany(committed, base, n - 1) + [NthSlug(base, n)]
    ensures CountMatches(SaveMany(committed, base, n), base) == n
  {
    var c := SaveMany(committed, base, n - 1);
    SaveOneMore(c, base, n - 1);
  }

  /** With m matching slugs committed, the next save produces the slug
      numbered m + 1, and then m + 1 slugs match. */
  lemma SaveOneMore(c: seq<string>, base: string, m: nat)
    requires CountMatches(c, base) == m
    ensures ResolveSlug(base, c) == NthSlug(base, m + 1)
    ensures CountMatches(c + [ResolveSlug(base, c)], base) == m + 1
  {
    NthSlugMatches(base, m + 1);
    CountAppend(c, base, ResolveSlug(base, c));
  }

  /** After such a run of n saves, the matching slugs are all from the family
      `base`, `base-2`, ..., `base-n`, which is the hypothesis under which
      the next save produces a fresh slug. */
  lemma SaveManyFamily(committed: seq<string>, base: string, n: nat)
    requires CountMatches(committed, base) == 0
    ensures forall s :: s in SaveMany(committed, base, n) && Matches(s, base) ==> InFamily(s, base, n)
  {
    var d := SaveMany(committed, base, n);
    NoneCommitted(committed, base);
    SaveManyPrefix(committed, base, n, 0);
    forall i | |committed| <= i < |d| ensures InFamily(d[i], base, n) {
      var m := i + 1 - |committed|;
      SaveManyNumbered(committed, base, n, m);
      assert 1 <= m <= n && d[i] == NthSlug(base, m);
    }
    forall i | 0 <= i < |committed| ensures d[i] == committed[i] {
      assert d[i] == d[..|committed|][i];
    }
  }

  /** With no match committed, no committed slug matches. */
  lemma NoneCommitted(committed: seq<string>, base: string)
    requires CountMatches(committed, base) == 0
    ensures forall s :: s in committed ==> !Matches(s, base)
  {
  }

  /** The slugs produced by such a run of saves are pairwise different and
      different from every slug committed before. */
  lemma SaveManyUnique(committed: seq<string>, base: string, n: nat, i: nat, j: nat)
    requires CountMatches(committed, base) == 0
    requires |committed| <= i < j < |committed| + n
    ensures SaveMany(committed, base, n)[i] != SaveMany(committed, base, n)[j]
    ensures SaveMany(committed, base, n)[j] !in committed
  {
    var c := SaveMany(committed, base, n);
    var mi, mj := i + 1 - |committed|, j + 1 - |committed|;
    SaveManyNumbered(committed, base, n, mi);
    SaveManyNumbered(committed, base, n, mj);
    if c[i] == c[j] {
      NthSlugInjective(base, mi, mj);
    }
    NthSlugMatches(base, mj);
  }

  lemma NthSlugMatches(base: string, m: nat)
    requires m >= 1
    ensures Matches(NthSlug(base, m), base)
  {
    if m == 1 {
      MatchesItself(base);
    } else {
      SuffixedMatches(base, DecimalString(m));
    }
  }

  /** Within a run of n saves, the m-th saved slug is `NthSlug(base, m)`. */
  lemma SaveManyNumbered(committed: seq<string>, base: string, n: nat, m: nat)
    requires CountMatches(committed, base) == 0
    requires 1 <= m <= n
    ensures SaveMany(committed, base, n)[|committed| + m - 1] == NthSlug(base, m)
  {
    SaveManyPrefix(committed, base, n, m);
    SaveManyNumbers(committed, base, m);
    assert SaveMany(committed, base, n)[|committed| + m - 1]
        == SaveMany(committed, base, n)[..|committed| + m][|committed| + m - 1];
  }

  /** A shorter run of saves is a prefix of a longer one. */
  lemma {:induction false} SaveManyPrefix(committed: seq<string>, base: string, n: nat, m: nat)
    requires m <= n
    ensures SaveMany(committed, base, m) == SaveMany(committed, base, n)[..|committed| + m]
  {
    if m < n {
      SaveManyPrefix(committed, base, n - 1, m);
      var c := SaveMany(committed, base, n - 1);
      AppendKeepsPrefix(c, ResolveSlug(base, c), |committed| + m);
    }
  }

  lemma AppendKeepsPrefix<T>(c: seq<T>, x: T, k: nat)
    requires k <= |c|
    ensures (c + [x])[..k] == c[..k]
  {
    assert forall i :: 0 <= i < k ==> (c + [x])[i] == c[i];
  }
}
