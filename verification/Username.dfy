/** The user name rule (internal/onboarding/http_handlers.go): a regular expression read through
    its match relation, the condition it means, and two other ways to decide it.

    A character stands for one byte of the request's string; bytes outside ASCII are in no class. */
module Username {

  datatype CharClass = Alphanumeric | Separator

  predicate InClass(c: char, k: CharClass) {
    match k
    case Alphanumeric => 'A' <= c <= 'Z' || 'a' <= c <= 'z' || '0' <= c <= '9'
    case Separator => c == ' ' || c == '_' || c == '-'
  }

  datatype Regex =
    | Class(k: CharClass)
    | Concat(first: Regex, second: Regex)
    | Star(body: Regex)

  function Plus(r: Regex): Regex {
    Concat(r, Star(r))
  }

  predicate Matches(r: Regex, s: string)
    decreases r, |s|
  {
    match r
    case Class(k) => |s| == 1 && InClass(s[0], k)
    case Concat(a, b) => exists k :: 0 <= k <= |s| && Matches(a, s[..k]) && Matches(b, s[k..])
    case Star(a) => s == [] || exists k :: 0 < k <= |s| && Matches(a, s[..k]) && Matches(r, s[k..])
  }

  const RUN := Plus(Class(Alphanumeric))
  const PART := Concat(Class(Separator), RUN)

  /** ^[A-Za-z0-9]+(?:[ _-][A-Za-z0-9]+)*$ */
  const USER_NAME := Concat(RUN, Star(PART))

  predicate IsAlnum(c: char) { InClass(c, Alphanumeric) }

  predicate IsSep(c: char) { InClass(c, Separator) }

  predicate AllAlnum(s: string) {
    forall i :: 0 <= i < |s| ==> IsAlnum(s[i])
  }

  /** Starts and ends with an alphanumeric, holds nothing but alphanumerics and separators, and
      has no two separators side by side. */
  predicate WellFormed(s: string) {
    && s != [] && IsAlnum(s[0]) && IsAlnum(s[|s| - 1])
    && (forall i :: 0 <= i < |s| ==> IsAlnum(s[i]) || IsSep(s[i]))
    && (forall i :: 0 <= i < |s| - 1 ==> !(IsSep(s[i]) && IsSep(s[i + 1])))
  }

  /** What may follow a run: nothing, or a separator and a well formed name. */
  predicate IsTail(s: string) {
    s == [] || (IsSep(s[0]) && WellFormed(s[1..]))
  }

  // ---- The expression means WellFormed ----

  lemma {:induction false} StarOfAlnum(s: string)
    ensures Matches(Star(Class(Alphanumeric)), s) <==> AllAlnum(s)
    decreases |s|
  {
    var r := Class(Alphanumeric);
    if s != [] {
      StarOfAlnum(s[1..]);
      if AllAlnum(s) {
        assert AllAlnum(s[1..]);
        assert Matches(r, s[..1]) && Matches(Star(r), s[1..]);
      }
      if Matches(Star(r), s) {
        var k :| 0 < k <= |s| && Matches(r, s[..k]) && Matches(Star(r), s[k..]);
        assert k == 1 && s[..1][0] == s[0];
        assert forall i :: 1 <= i < |s| ==> s[i] == s[1..][i - 1];
      }
    }
  }

  lemma RunMatches(s: string)
    ensures Matches(RUN, s) <==> s != [] && AllAlnum(s)
  {
    var r := Class(Alphanumeric);
    if s != [] {
      StarOfAlnum(s[1..]);
      assert s[..1][0] == s[0];
      assert AllAlnum(s) <==> IsAlnum(s[0]) && AllAlnum(s[1..]) by {
        assert forall i :: 1 <= i < |s| ==> s[i] == s[1..][i - 1];
      }
      if AllAlnum(s) {
        assert Matches(r, s[..1]) && Matches(Star(r), s[1..]);
      }
    }
  }

  lemma RunThenTail(s: string, k: nat)
    requires 0 < k <= |s| && AllAlnum(s[..k]) && IsTail(s[k..])
    ensures WellFormed(s)
  {
    var rest := s[k..];
    assert forall i :: 0 <= i < k ==> s[i] == s[..k][i] && IsAlnum(s[i]);
    if rest != [] {
      var name := rest[1..];
      assert forall i :: k < i < |s| ==> s[i] == name[i - k - 1];
      assert rest[0] == s[k] && |s| == k + 1 + |name|;
    }
  }

  function RunLength(s: string): nat {
    if s == [] || !IsAlnum(s[0]) then 0 else 1 + RunLength(s[1..])
  }

  lemma {:induction false} RunLengthIsMaximal(s: string)
    ensures RunLength(s) <= |s| && AllAlnum(s[..RunLength(s)])
    ensures RunLength(s) < |s| ==> !IsAlnum(s[RunLength(s)])
    decreases |s|
  {
    if s != [] && IsAlnum(s[0]) {
      RunLengthIsMaximal(s[1..]);
      var n := RunLength(s);
      assert forall i :: 1 <= i < n ==> s[..n][i] == s[1..][..n - 1][i - 1];
    }
  }

  lemma SplitOffRun(s: string)
    requires WellFormed(s)
    ensures 0 < RunLength(s) <= |s| && AllAlnum(s[..RunLength(s)]) && IsTail(s[RunLength(s)..])
  {
    RunLengthIsMaximal(s);
    var n := RunLength(s);
    if n < |s| {
      assert IsSep(s[n]) && n + 1 < |s|;
      var name := s[n..][1..];
      assert forall i :: 0 <= i < |name| ==> name[i] == s[n + 1 + i];
    }
  }

  predicate IsPart(s: string) {
    |s| > 1 && IsSep(s[0]) && AllAlnum(s[1..])
  }

  lemma PartThenTail(s: string, k: nat)
    requires k <= |s| && IsPart(s[..k]) && IsTail(s[k..])
    ensures IsTail(s)
  {
    var name := s[1..];
    assert name[..k - 1] == s[..k][1..] && name[k - 1..] == s[k..];
    RunThenTail(name, k - 1);
    assert s[..k][0] == s[0];
  }

  lemma SplitOffPart(s: string) returns (k: nat)
    requires IsTail(s) && s != []
    ensures 0 < k <= |s| && IsPart(s[..k]) && IsTail(s[k..])
  {
    var name := s[1..];
    SplitOffRun(name);
    k := 1 + RunLength(name);
    assert s[..k][1..] == name[..k - 1] && s[k..] == name[k - 1..];
  }

  lemma {:induction false} TailMatches(s: string)
    ensures Matches(Star(PART), s) <==> IsTail(s)
    decreases |s|
  {
    if s != [] {
      if Matches(Star(PART), s) {
        var k :| 0 < k <= |s| && Matches(PART, s[..k]) && Matches(Star(PART), s[k..]);
        PartMatches(s[..k]);
        TailMatches(s[k..]);
        PartThenTail(s, k);
      }
      if IsTail(s) {
        var k := SplitOffPart(s);
        PartMatches(s[..k]);
        TailMatches(s[k..]);
        assert Matches(PART, s[..k]) && Matches(Star(PART), s[k..]);
      }
    }
  }

  lemma PartMatches(s: string)
    ensures Matches(PART, s) <==> IsPart(s)
  {
    if Matches(PART, s) {
      var k :| 0 <= k <= |s| && Matches(Class(Separator), s[..k]) && Matches(RUN, s[k..]);
      assert k == 1 && s[..1][0] == s[0];
      RunMatches(s[1..]);
    }
    if IsPart(s) {
      RunMatches(s[1..]);
      assert Matches(Class(Separator), s[..1]) && Matches(RUN, s[1..]);
    }
  }

  /** The regular expression accepts exactly the well formed names. */
  lemma UserNameMeansWellFormed(s: string)
    ensures Matches(USER_NAME, s) <==> WellFormed(s)
  {
    if Matches(USER_NAME, s) {
      var k :| 0 <= k <= |s| && Matches(RUN, s[..k]) && Matches(Star(PART), s[k..]);
      RunMatches(s[..k]);
      TailMatches(s[k..]);
      RunThenTail(s, k);
    }
    if WellFormed(s) {
      SplitOffRun(s);
      var k := RunLength(s);
      RunMatches(s[..k]);
      TailMatches(s[k..]);
      assert Matches(RUN, s[..k]) && Matches(Star(PART), s[k..]);
    }
  }

  // ---- One pass decides it ----

  datatype Scan = Start | InRun | AfterSeparator | Rejected

  function Advance(state: Scan, c: char): Scan {
    if IsAlnum(c) && !state.Rejected? then InRun
    else if IsSep(c) && state.InRun? then AfterSeparator
    else Rejected
  }

  function ScanAll(s: string): Scan {
    if s == [] then Start else Advance(ScanAll(s[..|s| - 1]), s[|s| - 1])
  }

  lemma {:induction false} ScanDecides(s: string)
    ensures ScanAll(s) == InRun <==> Matches(USER_NAME, s)
    ensures ScanAll(s) == AfterSeparator <==> s != [] && IsSep(s[|s| - 1]) && Matches(USER_NAME, s[..|s| - 1])
    ensures ScanAll(s) == Start <==> s == []
    decreases |s|
  {
    UserNameMeansWellFormed(s);
    if s != [] {
      var front, c := s[..|s| - 1], s[|s| - 1];
      assert forall i :: 0 <= i < |front| ==> front[i] == s[i];
      ScanDecides(front);
      UserNameMeansWellFormed(front);
      if front != [] {
        var before := front[..|front| - 1];
        UserNameMeansWellFormed(before);
        assert forall i :: 0 <= i < |before| ==> before[i] == s[i];
      }
    }
  }

  // ---- A name is its runs and separators ----

  predicate IsSplit(runs: seq<string>, seps: string) {
    && |runs| == |seps| + 1
    && (forall i :: 0 <= i < |runs| ==> runs[i] != [] && AllAlnum(runs[i]))
    && (forall i :: 0 <= i < |seps| ==> IsSep(seps[i]))
  }

  function Join(runs: seq<string>, seps: string): string
    requires |runs| == |seps| + 1
  {
    if seps == [] then runs[0] else runs[0] + [seps[0]] + Join(runs[1..], seps[1..])
  }

  lemma {:induction false} JoinsAreNames(runs: seq<string>, seps: string)
    requires IsSplit(runs, seps)
    ensures WellFormed(Join(runs, seps))
    decreases |seps|
  {
    var s, k := Join(runs, seps), |runs[0]|;
    if seps != [] {
      JoinsAreNames(runs[1..], seps[1..]);
      assert s[..k] == runs[0] && s[k..][1..] == Join(runs[1..], seps[1..]);
      assert s[k..][0] == seps[0];
      RunThenTail(s, k);
    }
  }

  lemma {:induction false} NamesSplit(s: string) returns (runs: seq<string>, seps: string)
    requires WellFormed(s)
    ensures IsSplit(runs, seps) && Join(runs, seps) == s
    decreases |s|
  {
    SplitOffRun(s);
    var n := RunLength(s);
    if n == |s| {
      runs, seps := [s], "";
      assert s[..n] == s;
    } else {
      var rest := s[n..];
      var moreRuns, moreSeps := NamesSplit(rest[1..]);
      runs, seps := [s[..n]] + moreRuns, [rest[0]] + moreSeps;
      assert runs[1..] == moreRuns && seps[1..] == moreSeps;
      assert s == s[..n] + [rest[0]] + rest[1..];
    }
  }

  lemma {:induction false} RunLengthOfRun(run: string, rest: string)
    requires AllAlnum(run) && (rest == [] || !IsAlnum(rest[0]))
    ensures RunLength(run + rest) == |run|
    decreases |run|
  {
    if run == [] {
      assert run + rest == rest;
    } else {
      assert (run + rest)[1..] == run[1..] + rest;
      RunLengthOfRun(run[1..], rest);
    }
  }

  lemma FirstRunOfJoin(runs: seq<string>, seps: string)
    requires IsSplit(runs, seps)
    ensures RunLength(Join(runs, seps)) == |runs[0]| <= |Join(runs, seps)|
    ensures Join(runs, seps)[..|runs[0]|] == runs[0]
    ensures seps == [] <==> |Join(runs, seps)| == |runs[0]|
  {
    if seps == [] {
      RunLengthOfRun(runs[0], "");
      assert runs[0] + "" == runs[0];
    } else {
      var rest := [seps[0]] + Join(runs[1..], seps[1..]);
      assert !IsAlnum(rest[0]);
      RunLengthOfRun(runs[0], rest);
      assert Join(runs, seps) == runs[0] + rest;
    }
  }

  /** ... in one way only. */
  lemma {:induction false} SplitsAreUnique(runs: seq<string>, seps: string, runs': seq<string>, seps': string)
    requires IsSplit(runs, seps) && IsSplit(runs', seps') && Join(runs, seps) == Join(runs', seps')
    ensures runs == runs' && seps == seps'
    decreases |seps|
  {
    FirstRunOfJoin(runs, seps);
    FirstRunOfJoin(runs', seps');
    assert runs[0] == runs'[0];
    if seps != [] {
      var s, k := Join(runs, seps), |runs[0]|;
      assert s[k] == seps[0] && s[k + 1..] == Join(runs[1..], seps[1..]);
      assert s[k] == seps'[0] && s[k + 1..] == Join(runs'[1..], seps'[1..]);
      SplitsAreUnique(runs[1..], seps[1..], runs'[1..], seps'[1..]);
      assert runs == [runs[0]] + runs[1..] && runs' == [runs'[0]] + runs'[1..];
      assert seps == [seps[0]] + seps[1..] && seps' == [seps'[0]] + seps'[1..];
    }
  }
}
