/**
 * The bot's pre-start guard against local secret files: every name in the
 * project root is tested, case-insensitively, against a list of `.env`
 * layouts, and the script fails when any matching file exists.
 */
module EnvCheck {
  import opened Common
  import opened Strings

  /** `.env`, `.env.*`, `.env-*`, `.env_*`, `*.env`, `*-env` and `*_env`: the layouts flagged outright. */
  predicate Outright(f: string) {
    || f == ".env"
    || IsPrefix(".env.", f) || IsPrefix(".env-", f) || IsPrefix(".env_", f)
    || IsSuffix(".env", f) || IsSuffix("-env", f) || IsSuffix("_env", f)
  }

  /**
   * Any other name holding `env` that avoids `node_modules` and `check-env`
   * and looks like a dot file, an `.env` variant or ends in `env`.
   */
  predicate Suspicious(f: string) {
    && Contains(f, "env")
    && !Contains(f, "node_modules")
    && !Contains(f, "check-env")
    && (IsPrefix(".", f) || Contains(f, ".env") || IsSuffix("env", f))
  }

  /** The test applied to a lower-cased name. */
  predicate FlaggedLower(f: string) {
    Outright(f) || Suspicious(f)
  }

  /** A directory entry is flagged when its lower-cased name is. */
  predicate Flagged(name: string) {
    FlaggedLower(Lower(name))
  }

  /** `toLowerCase` applied twice is applied once. */
  lemma LowerIdempotent(s: string)
    ensures Lower(Lower(s)) == Lower(s)
  {
    forall i | 0 <= i < |s| ensures LowerChar(LowerChar(s[i])) == LowerChar(s[i]) { }
  }

  /** Names that differ only in the case of their letters are flagged alike. */
  lemma FlaggedIgnoresCase(name: string)
    ensures Flagged(Lower(name)) <==> Flagged(name)
  {
    LowerIdempotent(name);
  }

  /** Every flagged name holds `env`, so a name without it is never flagged. */
  lemma FlaggedHoldsEnv(f: string)
    ensures FlaggedLower(f) ==> Contains(f, "env")
  {
    if Outright(f) {
      OutrightHoldsEnv(f);
    }
  }

  lemma OutrightHoldsEnv(f: string)
    requires Outright(f)
    ensures Contains(f, "env")
  {
    if f == ".env" || IsPrefix(".env.", f) || IsPrefix(".env-", f) || IsPrefix(".env_", f) {
      assert f[1] == 'e' && f[2] == 'n' && f[3] == 'v';
      EnvAt(f, 1);
    } else {
      var n := |f|;
      assert f[n - 3] == 'e' && f[n - 2] == 'n' && f[n - 1] == 'v';
      EnvAt(f, n - 3);
    }
  }

  lemma EnvAt(f: string, i: nat)
    requires i + 3 <= |f| && f[i] == 'e' && f[i + 1] == 'n' && f[i + 2] == 'v'
    ensures Contains(f, "env")
  {
    assert f[i..i + 3] == "env";
    assert OccursAt(f, "env", i);
  }

  /** A name without `env` in any case mix is never flagged. */
  lemma WithoutEnvNotFlagged(name: string)
    requires !Contains(Lower(name), "env")
    ensures !Flagged(name)
  {
    FlaggedHoldsEnv(Lower(name));
  }

  /** `.envrc` is caught by the dot-file rule. */
  lemma EnvrcFlagged(f: string)
    requires f == ".envrc"
    ensures Flagged(f)
  {
    LowerFixes(f);
    assert f[1..4] == "env";
    assert OccursAt(f, "env", 1);
    NoCharNoContains(f, "node_modules", 'o');
    NoCharNoContains(f, "check-env", 'h');
    assert IsPrefix(".", f);
  }

  /** A name that neither starts with `.` nor ends in `v` fits none of the outright layouts. */
  lemma NotOutright(f: string)
    requires |f| > 0 && f[0] != '.' && f[|f| - 1] != 'v'
    ensures !Outright(f)
  {
    assert f != ".env";
    assert !IsPrefix(".env.", f) && !IsPrefix(".env-", f) && !IsPrefix(".env_", f);
    assert !IsSuffix(".env", f) && !IsSuffix("-env", f) && !IsSuffix("_env", f);
  }

  /** The guard's own file name is exempt. */
  lemma CheckEnvScriptNotFlagged(f: string)
    requires f == "check-env.js"
    ensures !Flagged(f)
  {
    LowerFixes(f);
    OccursAtPrefix(f, "check-env");
    NotOutright(f);
  }

  /** `environment.ts` holds `env` but matches none of the layouts. */
  lemma EnvironmentSourceNotFlagged(f: string)
    requires f == "environment.ts"
    ensures !Flagged(f)
  {
    LowerFixes(f);
    EnvironmentEnds(f);
    NotOutright(f);
    NoDotEnv(f);
    NoVariantLayout(f);
  }

  lemma EnvironmentEnds(f: string)
    requires f == "environment.ts"
    ensures |f| > 0 && f[0] == 'e' && f[|f| - 1] == 's'
  {
  }

  /** A name fitting no outright layout that neither starts with `.` nor ends in `env` nor holds `.env` is not flagged. */
  lemma NoVariantLayout(f: string)
    requires !Outright(f) && !Contains(f, ".env")
    requires |f| > 0 && f[0] != '.' && f[|f| - 1] != 'v'
    ensures !FlaggedLower(f)
  {
    assert !IsPrefix(".", f) && !IsSuffix("env", f);
  }

  lemma NoDotEnv(f: string)
    requires f == "environment.ts"
    ensures !Contains(f, ".env")
  {
    assert f == "environment" + ".ts";
    NoCharNoContains("environment", ".env", '.');
    NoCharNoContains(".ts", ".env", 'e');
    NotContainsConcat("environment", ".ts", ".env");
  }

  /** A bare `check-env` in any case mix, without an extension, is caught by the `-env` suffix rule. */
  lemma BareCheckEnvFlagged(f: string)
    requires Lower(f) == "check-env"
    ensures Flagged(f)
  {
    var l := Lower(f);
    assert l[|l| - 4..] == "-env";
    assert Outright(l);
  }

  /** Whether `hit` accepts each listed name, position by position. */
  function Hits(names: seq<string>, hit: string -> bool): (bs: seq<bool>)
    ensures |bs| == |names| && forall i :: 0 <= i < |names| ==> bs[i] == hit(names[i])
  {
    seq(|names|, i requires 0 <= i < |names| => hit(names[i]))
  }

  /**
   * The names `hit` accepts, in listing order: every accepted name is found,
   * and the found names are the listed ones at the accepted positions.
   */
  function Matching(names: seq<string>, hit: string -> bool): (found: seq<string>)
    ensures |found| <= |names|
    ensures forall i :: 0 <= i < |found| ==> hit(found[i])
    ensures forall i :: 0 <= i < |names| && hit(names[i]) ==> names[i] in found
    ensures var ps := Positions(Hits(names, hit));
      |found| == |ps| && forall k :: 0 <= k < |ps| ==> found[k] == names[ps[k]]
  {
    if |names| == 0 then []
    else
      var n := |names| - 1;
      var init := names[..n];
      var bs := Hits(names, hit);
      assert bs[..n] == Hits(init, hit);
      assert Positions(bs) == if bs[n] then Positions(bs[..n]) + [n] else Positions(bs[..n]);
      assert forall i :: 0 <= i < n ==> init[i] == names[i];
      var found := Matching(init, hit) + (if hit(names[n]) then [names[n]] else []);
      MatchingFacts(names, hit, found);
      found
  }

  /** What follows for length, soundness and completeness once `found` holds the accepted names at their positions. */
  lemma MatchingFacts(names: seq<string>, hit: string -> bool, found: seq<string>)
    requires var ps := Positions(Hits(names, hit));
      |found| == |ps| && forall k :: 0 <= k < |ps| ==> found[k] == names[ps[k]]
    ensures |found| <= |names|
    ensures forall i :: 0 <= i < |found| ==> hit(found[i])
    ensures forall i :: 0 <= i < |names| && hit(names[i]) ==> names[i] in found
  {
    var ps := Positions(Hits(names, hit));
    PositionsLength(Hits(names, hit));
    forall i | 0 <= i < |names| && hit(names[i]) ensures names[i] in found {
      var k :| 0 <= k < |ps| && ps[k] == i;
      assert found[k] == names[i];
    }
  }

  /** Nothing is found exactly when `hit` accepts no listed name. */
  lemma {:induction false} MatchingEmpty(names: seq<string>, hit: string -> bool)
    ensures Matching(names, hit) == [] <==> forall i :: 0 <= i < |names| ==> !hit(names[i])
  {
    if |names| > 0 {
      var init := names[..|names| - 1];
      MatchingEmpty(init, hit);
      assert forall i :: 0 <= i < |init| ==> init[i] == names[i];
    }
  }

  /** The flagged names among `names` that exist, in listing order. */
  function Offending(names: seq<string>, present: string -> bool): (found: seq<string>)
    ensures |found| <= |names|
    ensures forall i :: 0 <= i < |found| ==> Flagged(found[i]) && present(found[i])
    ensures forall i :: 0 <= i < |names| && Flagged(names[i]) && present(names[i]) ==> names[i] in found
    ensures var ps := Positions(Hits(names, name => Flagged(name) && present(name)));
      |found| == |ps| && forall k :: 0 <= k < |ps| ==> found[k] == names[ps[k]]
  {
    Matching(names, name => Flagged(name) && present(name))
  }

  /** Nothing is reported exactly when no listed name is both flagged and present. */
  lemma OffendingEmpty(names: seq<string>, present: string -> bool)
    ensures Offending(names, present) == [] <==>
      forall i :: 0 <= i < |names| ==> !(Flagged(names[i]) && present(names[i]))
  {
    MatchingEmpty(names, name => Flagged(name) && present(name));
  }

  /**
   * The scan over the project root's listing: the flagged names that exist,
   * in order, and exit status 1 when there is at least one.
   */
  method Scan(names: seq<string>, present: string -> bool) returns (exitCode: nat, found: seq<string>)
    ensures found == Offending(names, present)
    ensures exitCode == 1 <==> exists i :: 0 <= i < |names| && Flagged(names[i]) && present(names[i])
    ensures exitCode == 0 || exitCode == 1
  {
    var hasEnvFile := false;
    found := [];
    var k := 0;
    while k < |names|
      invariant 0 <= k <= |names|
      invariant found == Offending(names[..k], present)
      invariant hasEnvFile <==> found != []
    {
      var name := names[k];
      assert names[..k + 1][..k] == names[..k];
      if Flagged(name) && present(name) {
        found := found + [name];
        hasEnvFile := true;
      }
      k := k + 1;
    }
    assert names[..|names|] == names;
    OffendingEmpty(names, present);
    exitCode := if hasEnvFile then 1 else 0;
  }
}
