/** Versions of the drift thresholds: alerts pin a version number, so a version
    must never change under them. */
module ThresholdVersions {

  datatype Thresholds = Thresholds(psi: real, ks: real, wasserstein: real, kl: real)

  /** Equal after rounding; `round` stands for rounding to six decimals. */
  predicate Matches(round: real -> int, a: Thresholds, b: Thresholds) {
    && round(a.psi) == round(b.psi)
    && round(a.ks) == round(b.ks)
    && round(a.wasserstein) == round(b.wasserstein)
    && round(a.kl) == round(b.kl)
  }

  /** The rows in order of version; row `k` has version number `k + 1`. */
  function Step(round: real -> int, rows: seq<Thresholds>, effective: Thresholds): seq<Thresholds> {
    if rows != [] && Matches(round, rows[|rows|-1], effective) then rows else rows + [effective]
  }

  function Run(round: real -> int, checks: seq<Thresholds>): seq<Thresholds> {
    if checks == [] then [] else Step(round, Run(round, checks[..|checks|-1]), checks[|checks|-1])
  }

  class VersionTable {
    var rows: seq<Thresholds>

    constructor ()
      ensures rows == []
    {
      rows := [];
    }

    /** The version a check is pinned to: its row matches the thresholds in effect. */
    method GetOrCreate(round: real -> int, effective: Thresholds) returns (version: nat)
      modifies this
      ensures rows == Step(round, old(rows), effective)
      ensures 0 < version == |rows|
      ensures var row := rows[version-1];
              && round(row.psi) == round(effective.psi) && round(row.ks) == round(effective.ks)
              && round(row.wasserstein) == round(effective.wasserstein) && round(row.kl) == round(effective.kl)
    {
      if rows != [] && Matches(round, rows[|rows|-1], effective) {
        return |rows|;
      }
      rows := rows + [effective];
      version := |rows|;
    }
  }

  /** Over every run: the row of the version a check was pinned to matches what the
      check was evaluated against, and later checks never change or remove it. */
  lemma {:induction false} PinnedForGood(round: real -> int, checks: seq<Thresholds>, n: nat)
    requires 0 < n <= |checks|
    ensures var pinned := Run(round, checks[..n]);
            && pinned != [] && pinned <= Run(round, checks)
            && var row, check := pinned[|pinned|-1], checks[n-1];
               && round(row.psi) == round(check.psi) && round(row.ks) == round(check.ks)
               && round(row.wasserstein) == round(check.wasserstein) && round(row.kl) == round(check.kl)
    decreases |checks|
  {
    assert checks[..n][..n-1] == checks[..n-1];
    if n < |checks| {
      var front := checks[..|checks|-1];
      assert front[..n] == checks[..n];
      PinnedForGood(round, front, n);
    } else {
      assert checks[..n] == checks;
    }
  }

  /** Two neighbouring versions always differ after rounding. */
  lemma {:induction false} NeighboursDiffer(round: real -> int, checks: seq<Thresholds>, v: nat)
    requires 0 < v < |Run(round, checks)|
    ensures var a, b := Run(round, checks)[v-1], Run(round, checks)[v];
            || round(a.psi) != round(b.psi) || round(a.ks) != round(b.ks)
            || round(a.wasserstein) != round(b.wasserstein) || round(a.kl) != round(b.kl)
  {
    var before := Run(round, checks[..|checks|-1]);
    if v < |before| {
      NeighboursDiffer(round, checks[..|checks|-1], v);
    }
  }
}
