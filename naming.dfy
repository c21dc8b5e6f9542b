/**
 * Collision-safe output naming: the output goes to `<outputPath>/<fileName>` unless that
 * name is taken and overwriting is off, in which case the first free `<name>.<k>`, k >= 1, is used.
 * "A file exists" is membership in a finite set of paths.
 */
module Naming {

  type Path = string

  /** The character QString::number writes for the decimal digit d. */
  function DigitChar(d: nat): char
    requires d < 10
  {
    ('0' as int + d) as char
  }

  /** The digit value of a character '0' .. '9'. */
  function DigitValue(c: char): int
  {
    c as int - '0' as int
  }

  /** The decimal text of n as QString::number gives it: digits only, no sign, no leading zero. */
  function Decimal(n: nat): (s: string)
    ensures |s| >= 1
    ensures forall i :: 0 <= i < |s| ==> '0' <= s[i] <= '9'
    ensures s[0] == '0' <==> n == 0
    decreases n
  {
    if n < 10 then [DigitChar(n)] else Decimal(n / 10) + [DigitChar(n % 10)]
  }

  /** The number a string of decimal digits denotes, most significant digit first. */
  function DecimalValue(s: string): int
    decreases |s|
  {
    if s == [] then 0 else 10 * DecimalValue(s[..|s| - 1]) + DigitValue(s[|s| - 1])
  }

  /** Reading back the decimal text of n gives n. */
  lemma {:induction false} DecimalRoundTrip(n: nat)
    ensures DecimalValue(Decimal(n)) == n
    decreases n
  {
    if n >= 10 {
      DecimalRoundTrip(n / 10);
      var s := Decimal(n);
      assert s[..|s| - 1] == Decimal(n / 10);
    }
  }

  /** The name the output is first tried under: `outputPath + "/" + fileName`. */
  function Candidate(dir: Path, file: Path): Path
  {
    dir + "/" + file
  }

  /** The k-th probe: `name + "." + QString::number(k)`. */
  function Suffixed(base: Path, k: nat): Path
  {
    base + "." + Decimal(k)
  }

  /** Different file names give different candidates in the same output directory. */
  lemma CandidateDistinct(dir: Path, f: Path, g: Path)
    requires f != g
    ensures Candidate(dir, f) != Candidate(dir, g)
  {
    assert Candidate(dir, f)[|dir| + 1..] == f;
    assert Candidate(dir, g)[|dir| + 1..] == g;
  }

  /** A candidate always has '/' at the position just after the output directory. */
  lemma CandidateHasSlash(dir: Path, file: Path)
    ensures '/' in Candidate(dir, file)
    ensures |Candidate(dir, file)| > |file|
  {
    assert Candidate(dir, file)[|dir|] == '/';
  }

  /** Different counters give different probe names. */
  lemma SuffixedInjective(base: Path, a: nat, b: nat)
    requires Suffixed(base, a) == Suffixed(base, b)
    ensures a == b
  {
    assert Suffixed(base, a)[|base| + 1..] == Decimal(a);
    assert Suffixed(base, b)[|base| + 1..] == Decimal(b);
    DecimalRoundTrip(a);
    DecimalRoundTrip(b);
  }

  /** The probe names base.1 .. base.n. */
  function Probes(base: Path, n: nat): set<Path>
    decreases n
  {
    if n == 0 then {} else Probes(base, n - 1) + {Suffixed(base, n)}
  }

  /** base.k is among the first n probes exactly when 1 <= k <= n. */
  lemma {:induction false} ProbesMembers(base: Path, n: nat, k: nat)
    ensures Suffixed(base, k) in Probes(base, n) <==> 1 <= k <= n
    decreases n
  {
    if n > 0 {
      ProbesMembers(base, n - 1, k);
      if Suffixed(base, k) == Suffixed(base, n) {
        SuffixedInjective(base, k, n);
      }
    }
  }

  /** The first n probes are n distinct names. */
  lemma {:induction false} ProbesCount(base: Path, n: nat)
    ensures |Probes(base, n)| == n
    decreases n
  {
    if n > 0 {
      ProbesCount(base, n - 1);
      ProbesMembers(base, n - 1, n);
    }
  }

  /** Pigeonhole: if base.1 .. base.n all exist, there are at least n existing paths. */
  lemma {:induction false} Pigeonhole(existing: set<Path>, base: Path, n: nat)
    requires forall j :: 1 <= j <= n ==> Suffixed(base, j) in existing
    ensures n <= |existing|
    decreases n
  {
    var probes := Probes(base, n);
    forall p | p in probes
      ensures p in existing
    {
      ProbesIn(base, n, p);
    }
    ProbesCount(base, n);
    assert existing == probes + (existing - probes);
  }

  /**
   * Pigeonhole with the first choice itself taken: base and base.1 .. base.n are n + 1
   * different existing paths, since every probe name is longer than base.
   */
  lemma PigeonholeWithBase(existing: set<Path>, base: Path, n: nat)
    requires base in existing
    requires forall j :: 1 <= j <= n ==> Suffixed(base, j) in existing
    ensures n + 1 <= |existing|
  {
    var probes := Probes(base, n);
    forall p | p in probes
      ensures p in existing && |p| > |base|
    {
      ProbesIn(base, n, p);
    }
    assert base !in probes;
    ProbesCount(base, n);
    assert existing == (probes + {base}) + (existing - (probes + {base}));
  }

  /** Every probe in Probes(base, n) is some base.j with 1 <= j <= n. */
  lemma {:induction false} ProbesIn(base: Path, n: nat, p: Path)
    requires p in Probes(base, n)
    ensures exists j :: 1 <= j <= n && p == Suffixed(base, j)
    decreases n
  {
    if p != Suffixed(base, n) {
      ProbesIn(base, n - 1, p);
    }
  }

  /** The least k' >= k whose probe is free, given that base.1 .. base.(k-1) all exist. */
  function FirstFree(existing: set<Path>, base: Path, k: nat): (r: nat)
    requires k >= 1
    requires forall j :: 1 <= j < k ==> Suffixed(base, j) in existing
    ensures k <= r <= |existing| + 1
    ensures Suffixed(base, r) !in existing
    ensures forall j :: 1 <= j < r ==> Suffixed(base, j) in existing
    decreases |existing| + 1 - k
  {
    if Suffixed(base, k) !in existing then
      Pigeonhole(existing, base, k - 1);
      k
    else
      Pigeonhole(existing, base, k);
      FirstFree(existing, base, k + 1)
  }

  /** Only one counter is the first free one. */
  lemma FirstFreeUnique(existing: set<Path>, base: Path, k: nat)
    requires k >= 1 && Suffixed(base, k) !in existing
    requires forall j :: 1 <= j < k ==> Suffixed(base, j) in existing
    ensures FirstFree(existing, base, 1) == k
  {
    var r := FirstFree(existing, base, 1);
    assert Suffixed(base, r) !in existing;
    assert Suffixed(base, k) !in existing;
  }

  /** The name the output is written under, for the candidate `base`. */
  function ResolvedName(existing: set<Path>, base: Path, overwrite: bool): (r: Path)
    ensures overwrite || base !in existing ==> r == base
    ensures !overwrite ==> r !in existing
    ensures |base| <= |r| && r[..|base|] == base
  {
    if overwrite || base !in existing then base
    else Suffixed(base, FirstFree(existing, base, 1))
  }

  /**
   * When the candidate is taken and overwriting is off, the name is base.k for the least
   * free k >= 1, every base.1 .. base.(k-1) exists, and k is at most the number of existing paths
   * (base itself and the k - 1 taken probes are all among them).
   */
  lemma ResolvedNameProbes(existing: set<Path>, base: Path)
    requires base in existing
    ensures exists k :: (1 <= k <= |existing|
                         && ResolvedName(existing, base, false) == Suffixed(base, k)
                         && Suffixed(base, k) !in existing
                         && (forall j :: 1 <= j < k ==> Suffixed(base, j) in existing))
  {
    var k := FirstFree(existing, base, 1);
    PigeonholeWithBase(existing, base, k - 1);
    assert ResolvedName(existing, base, false) == Suffixed(base, k);
  }

  /** A '/' in the candidate is kept in whatever name is resolved from it. */
  lemma ResolvedNameHasSlash(existing: set<Path>, dir: Path, file: Path, overwrite: bool)
    ensures '/' in ResolvedName(existing, Candidate(dir, file), overwrite)
    ensures |ResolvedName(existing, Candidate(dir, file), overwrite)| > |file|
  {
    var base := Candidate(dir, file);
    var r := ResolvedName(existing, base, overwrite);
    CandidateHasSlash(dir, file);
    assert r[|dir|] == base[|dir|] == '/';
  }

  /** Directory `d` holding foo.txt (and then foo.txt.1): the probes give foo.txt.1, then foo.txt.2. */
  lemma ProbeExample(d: Path)
    ensures ResolvedName({Candidate(d, "foo.txt")}, Candidate(d, "foo.txt"), false) == Candidate(d, "foo.txt.1")
    ensures ResolvedName({Candidate(d, "foo.txt"), Candidate(d, "foo.txt.1")}, Candidate(d, "foo.txt"), false)
      == Candidate(d, "foo.txt.2")
    ensures ResolvedName({Candidate(d, "foo.txt")}, Candidate(d, "foo.txt"), true) == Candidate(d, "foo.txt")
  {
    var base := Candidate(d, "foo.txt");
    assert Decimal(1) == "1" && Decimal(2) == "2";
    assert Suffixed(base, 1) == Candidate(d, "foo.txt.1");
    assert Suffixed(base, 2) == Candidate(d, "foo.txt.2");
    assert |Suffixed(base, 1)| > |base| && |Suffixed(base, 2)| > |base|;
    assert Suffixed(base, 2)[|base| + 1] != Suffixed(base, 1)[|base| + 1];
    FirstFreeUnique({base}, base, 1);
    FirstFreeUnique({base, Suffixed(base, 1)}, base, 2);
  }

  /**
   * The naming step of the batch: start from the candidate; if it exists and overwriting is
   * off, probe `.1`, `.2`, ... until a name is free.
   */
  method ResolveOutputName(existing: set<Path>, dir: Path, file: Path, overwrite: bool) returns (name: Path)
    ensures name == ResolvedName(existing, Candidate(dir, file), overwrite)
  {
    var base := Candidate(dir, file);
    name := base;
    if name in existing && !overwrite {
      var counter: nat := 1;
      while name in existing
        invariant counter >= 1
        invariant counter == 1 ==> name == base
        invariant counter >= 2 ==> name == Suffixed(base, counter - 1)
        invariant forall j :: 1 <= j < counter - 1 ==> Suffixed(base, j) in existing
        invariant counter <= |existing| + 1
        decreases |existing| + 1 - counter
      {
        PigeonholeWithBase(existing, base, counter - 1);
        name := Suffixed(base, counter);
        counter := counter + 1;
      }
      FirstFreeUnique(existing, base, counter - 1);
    }
  }
}
