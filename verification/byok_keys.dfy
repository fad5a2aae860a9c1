// Key generation for migrated providers (packages/config/src/byok-config.ts):
// the first free name among base, base-2, base-3, ...

module ByokKeys {
  /** `${n}` */
  function Decimal(n: nat): (text: string)
    ensures |text| >= 1
  {
    if n < 10 then [Digit(n)] else Decimal(n / 10) + [Digit(n % 10)]
  }

  function Digit(d: nat): char
    requires d < 10
  {
    '0' + d as char
  }

  lemma {:induction false} DecimalIsInjective(m: nat, n: nat)
    requires Decimal(m) == Decimal(n)
    ensures m == n
  {
    var a, b := Decimal(m), Decimal(n);
    assert a[|a| - 1] == Digit(m % 10) && b[|b| - 1] == Digit(n % 10);
    if m >= 10 && n >= 10 {
      assert a[..|a| - 1] == Decimal(m / 10) && b[..|b| - 1] == Decimal(n / 10);
      DecimalIsInjective(m / 10, n / 10);
    }
  }

  /** The number a text of digits stands for. */
  function Value(text: string): nat {
    if text == "" then 0
    else
      var last := text[|text| - 1];
      10 * Value(text[..|text| - 1]) + if '0' <= last <= '9' then (last - '0') as nat else 0
  }

  lemma {:induction false} DecimalMeansTheNumber(n: nat)
    ensures Value(Decimal(n)) == n
  {
    var text := Decimal(n);
    if n >= 10 {
      assert text[..|text| - 1] == Decimal(n / 10);
      DecimalMeansTheNumber(n / 10);
    }
  }

  /** `base`, `base-2`, `base-3` and so on. */
  lemma CandidatesAreNumbered(base: string, suffix: nat)
    ensures suffix == 0 ==> Candidate(base, suffix) == base
    ensures suffix > 0 ==>
      exists number: string :: Candidate(base, suffix) == base + "-" + number && Value(number) == suffix + 1
  {
    DecimalMeansTheNumber(suffix + 1);
    if suffix > 0 {
      assert Candidate(base, suffix) == base + "-" + Decimal(suffix + 1);
    }
  }

  function Candidate(base: string, suffix: nat): string {
    if suffix == 0 then base else base + "-" + Decimal(suffix + 1)
  }

  lemma CandidatesDiffer(base: string, m: nat, n: nat)
    requires m != n
    ensures Candidate(base, m) != Candidate(base, n)
  {
    if Candidate(base, m) == Candidate(base, n) && m > 0 && n > 0 {
      var prefix := base + "-";
      assert Candidate(base, m)[|prefix|..] == Decimal(m + 1);
      assert Candidate(base, n)[|prefix|..] == Decimal(n + 1);
      DecimalIsInjective(m + 1, n + 1);
    }
  }

  lemma {:induction false} DecimalDigits(n: nat)
    ensures forall c :: c in Decimal(n) ==> '0' <= c <= '9'
  {
    if n >= 10 {
      DecimalDigits(n / 10);
    }
  }

  /** A candidate has no other characters than its base, a dash and digits. */
  lemma CandidateCharacters(base: string, suffix: nat, c: char)
    requires c in Candidate(base, suffix)
    ensures c in base || c == '-' || '0' <= c <= '9'
  {
    DecimalDigits(suffix + 1);
  }

  /** Every candidate from `suffix` on that is taken is one of those left to run into. */
  ghost predicate AccountsFor(base: string, taken: set<string>, suffix: nat, left: set<string>) {
    forall m: nat :: m >= suffix && Candidate(base, m) in taken ==> Candidate(base, m) in left
  }

  lemma OneLess(base: string, taken: set<string>, suffix: nat, left: set<string>)
    requires AccountsFor(base, taken, suffix, left)
    ensures AccountsFor(base, taken, suffix + 1, left - {Candidate(base, suffix)})
  {
    forall m: nat | m >= suffix + 1 && Candidate(base, m) in taken
      ensures Candidate(base, m) in left - {Candidate(base, suffix)}
    {
      CandidatesDiffer(base, m, suffix);
    }
  }

  /** The least suffix whose candidate is free. */
  ghost predicate FirstFree(base: string, taken: set<string>, suffix: nat) {
    Candidate(base, suffix) !in taken && forall m: nat :: m < suffix ==> Candidate(base, m) in taken
  }

  function Search(base: string, taken: set<string>, suffix: nat, ghost left: set<string>): (found: nat)
    requires AccountsFor(base, taken, suffix, left)
    requires forall m: nat :: m < suffix ==> Candidate(base, m) in taken
    ensures FirstFree(base, taken, found)
    decreases left
  {
    if Candidate(base, suffix) in taken then
      OneLess(base, taken, suffix, left);
      Search(base, taken, suffix + 1, left - {Candidate(base, suffix)})
    else suffix
  }

  /** The name that is free first. */
  function FreeKey(base: string, taken: set<string>): (key: string)
    ensures key !in taken
    ensures exists suffix: nat :: FirstFree(base, taken, suffix) && key == Candidate(base, suffix)
  {
    Candidate(base, Search(base, taken, 0, taken))
  }

  /** More keys than names taken need not be tried. */
  lemma {:induction false} SearchIsShort(base: string, taken: set<string>, suffix: nat)
    requires forall m: nat :: m < suffix ==> Candidate(base, m) in taken
    ensures suffix <= |taken|
  {
    if suffix > 0 {
      var last := Candidate(base, suffix - 1);
      forall m: nat | m < suffix - 1 ensures Candidate(base, m) in taken - {last} {
        CandidatesDiffer(base, m, suffix - 1);
      }
      SearchIsShort(base, taken - {last}, suffix - 1);
    }
  }

  method GenerateKey(base: string, existing: set<string>, reserved: set<string>) returns (key: string)
    ensures key == FreeKey(base, existing + reserved)
    ensures key !in existing && key !in reserved
    ensures exists suffix: nat :: key == Candidate(base, suffix) && suffix <= |existing + reserved|
  {
    ghost var taken := existing + reserved;
    var suffix := 0;
    while true
      invariant forall m: nat :: m < suffix ==> Candidate(base, m) in taken
      decreases |taken| - suffix
    {
      key := if suffix == 0 then base else base + "-" + Decimal(suffix + 1);
      SearchIsShort(base, taken, suffix);
      if key !in existing && key !in reserved {
        FirstFreeIsUnique(base, taken, suffix, Search(base, taken, 0, taken));
        return;
      }
      assert key == Candidate(base, suffix);
      assert forall m: nat :: m < suffix + 1 ==> Candidate(base, m) in taken;
      SearchIsShort(base, taken, suffix + 1);
      suffix := suffix + 1;
    }
  }

  lemma FirstFreeIsUnique(base: string, taken: set<string>, m: nat, n: nat)
    requires FirstFree(base, taken, m) && FirstFree(base, taken, n)
    ensures m == n
  {
  }
}
