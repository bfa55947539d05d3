/** Translating scanner reports to the flat list of findings: one finding per vulnerability,
    package and version, the first one wins, and counts by severity. */
module Findings {
  import opened Prelude
  import opened Sums
  import opened Dedupe

  datatype Finding = Finding(
    cve: string,
    severity: string,
    package: string,
    version: string,
    fixedIn: string,
    description: string,
    references: seq<string>
  )

  /** One vulnerability of a Trivy result, or one Grype match. */
  datatype Vulnerability = Vulnerability(
    id: string,
    package: string,
    version: string,
    fixedVersion: string,   // Trivy
    fixes: seq<string>,     // Grype
    severity: string,
    title: string,
    description: string,
    references: seq<string>
  )

  /** Upper case, letter by letter. */
  function Upper(s: string, upper: char -> char): string {
    seq(|s|, i requires 0 <= i < |s| => upper(s[i]))
  }

  function Key(v: Vulnerability): (string, string, string) {
    (v.id, v.package, v.version)
  }

  function FindingKey(f: Finding): (string, string, string) {
    (f.cve, f.package, f.version)
  }

  function FromTrivy(v: Vulnerability, upper: char -> char): Finding {
    Finding(v.id, Upper(v.severity, upper), v.package, v.version,
            v.fixedVersion,
            if v.title != "" then v.title + " \U{2014} " + v.description else v.description,
            v.references)
  }

  function FromGrype(v: Vulnerability, upper: char -> char): Finding {
    Finding(v.id, Upper(v.severity, upper), v.package, v.version,
            if v.fixes == [] then "" else v.fixes[0],
            v.description,
            v.references)
  }

  function TrivyWith(upper: char -> char): Vulnerability -> Finding {
    v => FromTrivy(v, upper)
  }

  function GrypeWith(upper: char -> char): Vulnerability -> Finding {
    v => FromGrype(v, upper)
  }

  ghost function Flat(results: seq<seq<Vulnerability>>): seq<Vulnerability> {
    if results == [] then [] else Flat(results[..|results| - 1]) + results[|results| - 1]
  }

  ghost function Mapped(vs: seq<Vulnerability>, convert: Vulnerability -> Finding): seq<Finding> {
    seq(|vs|, i requires 0 <= i < |vs| => convert(vs[i]))
  }

  lemma MappedAppend(vs: seq<Vulnerability>, v: Vulnerability, convert: Vulnerability -> Finding)
    ensures Mapped(vs + [v], convert) == Mapped(vs, convert) + [convert(v)]
  {
  }

  /** What has been collected from these vulnerabilities. */
  ghost predicate Collected(past: seq<Vulnerability>, convert: Vulnerability -> Finding, out: seq<Finding>,
                            seen: set<(string, string, string)>) {
    seen == KeysOf(past, Key) && out == Mapped(Firsts(past, Key), convert)
  }

  lemma CollectStep(past: seq<Vulnerability>, v: Vulnerability, convert: Vulnerability -> Finding, out: seq<Finding>,
                    seen: set<(string, string, string)>)
    requires Collected(past, convert, out, seen)
    ensures Key(v) in seen ==> Collected(past + [v], convert, out, seen)
    ensures Key(v) !in seen ==> Collected(past + [v], convert, out + [convert(v)], seen + {Key(v)})
  {
    KeysOfAppend(past, v, Key);
    FirstsAppend(past, v, Key);
    MappedAppend(Firsts(past, Key), v, convert);
  }

  /** One pass over a list, given the keys seen before it. */
  method Collect(done: seq<Finding>, seen: set<(string, string, string)>, vs: seq<Vulnerability>,
                 convert: Vulnerability -> Finding, ghost before: seq<Vulnerability>)
    returns (out: seq<Finding>, seen': set<(string, string, string)>)
    requires Collected(before, convert, done, seen)
    ensures Collected(before + vs, convert, out, seen')
  {
    out, seen' := done, seen;
    ghost var past := before;
    assert before + vs[..0] == before;
    for i := 0 to |vs|
      invariant past == before + vs[..i] && Collected(past, convert, out, seen')
    {
      assert before + vs[..i + 1] == past + [vs[i]];
      CollectStep(past, vs[i], convert, out, seen');
      past := past + [vs[i]];
      if Key(vs[i]) !in seen' {
        seen' := seen' + {Key(vs[i])};
        out := out + [convert(vs[i])];
      }
    }
    assert vs[..|vs|] == vs;
  }

  // ----- What the output owes to the report -----

  /** The finding is about this vulnerability, in this package at this version. */
  predicate About(f: Finding, v: Vulnerability) {
    f.cve == v.id && f.package == v.package && f.version == v.version
  }

  /** The finding says what Trivy said of it. */
  predicate TellsTrivy(f: Finding, v: Vulnerability, upper: char -> char) {
    && About(f, v) && Uppercased(f.severity, v.severity, upper)
    && f.fixedIn == v.fixedVersion && f.references == v.references
    && (v.title == "" ==> f.description == v.description)
    && (v.title != "" ==> f.description == v.title + " \U{2014} " + v.description)
  }

  /** The finding says what Grype said of it; the first of several fixed versions counts. */
  predicate TellsGrype(f: Finding, v: Vulnerability, upper: char -> char) {
    && About(f, v) && Uppercased(f.severity, v.severity, upper)
    && (v.fixes == [] ==> f.fixedIn == "") && (v.fixes != [] ==> f.fixedIn == v.fixes[0])
    && f.description == v.description && f.references == v.references
  }

  predicate Uppercased(s: string, t: string, upper: char -> char) {
    |s| == |t| && forall i :: 0 <= i < |s| ==> s[i] == upper(t[i])
  }

  /** For every vulnerability of the list there is exactly one finding about it, for no other
      there is one, and each finding says what the first vulnerability it is about says. */
  ghost predicate Owed(vs: seq<Vulnerability>, out: seq<Finding>, tells: (Finding, Vulnerability) -> bool) {
    && (forall v :: v in vs ==> exists j :: 0 <= j < |out| && About(out[j], v))
    && (forall j, k, v :: 0 <= j < k < |out| && About(out[j], v) ==> !About(out[k], v))
    && (forall j :: 0 <= j < |out| ==> exists i :: 0 <= i < |vs| && FirstAbout(vs, i, out[j]) && tells(out[j], vs[i]))
  }

  predicate FirstAbout(vs: seq<Vulnerability>, i: nat, f: Finding)
    requires i < |vs|
  {
    About(f, vs[i]) && forall k :: 0 <= k < i ==> !About(f, vs[k])
  }

  /** The first occurrences, converted, are what is owed, for every conversion that tells. */
  lemma FirstsAreOwed(vs: seq<Vulnerability>, convert: Vulnerability -> Finding, tells: (Finding, Vulnerability) -> bool)
    requires forall v :: tells(convert(v), v) && About(convert(v), v)
    ensures Owed(vs, Mapped(Firsts(vs, Key), convert), tells)
  {
    var out, r := Mapped(Firsts(vs, Key), convert), Picks(vs, Key);
    PicksAreTheFirsts(vs, Key);
    OnePickPerKey(vs, Key);
    forall j | 0 <= j < |out|
      ensures FirstAbout(vs, r[j], out[j]) && tells(out[j], vs[r[j]])
    {
      assert r[j] in r && out[j] == convert(vs[r[j]]);
      assert IsFirst(vs, Key, r[j]);
    }
    forall j, k, v | 0 <= j < k < |out| && About(out[j], v)
      ensures !About(out[k], v)
    {
      assert FirstAbout(vs, r[k], out[k]) && About(out[j], vs[r[j]]) && r[j] < r[k];
      assert !About(out[k], vs[r[j]]);
    }
    forall v | v in vs
      ensures exists j :: 0 <= j < |out| && About(out[j], v)
    {
      var j := PickOf(vs, v);
      assert About(out[j], v);
    }
  }

  /** Every element is represented by the pick of its key. */
  lemma PickOf(vs: seq<Vulnerability>, v: Vulnerability) returns (j: nat)
    requires v in vs
    ensures j < |Picks(vs, Key)| && Key(vs[Picks(vs, Key)[j]]) == Key(v)
  {
    var firsts := Firsts(vs, Key);
    OnePickPerKey(vs, Key);
    var i :| 0 <= i < |vs| && vs[i] == v;
    assert Key(vs[i]) in KeysOf(vs, Key);
    j :| 0 <= j < |firsts| && Key(firsts[j]) == Key(v);
  }

  /** The flat list is the results one after the other: these two equations determine it. */
  lemma {:induction false} FlatIsConcatenation(a: seq<seq<Vulnerability>>, b: seq<seq<Vulnerability>>, vs: seq<Vulnerability>)
    ensures Flat(a + b) == Flat(a) + Flat(b)
    ensures Flat([vs]) == vs
    decreases b
  {
    assert [vs][..0] == [] && Flat([]) == [];
    if b == [] {
      assert a + b == a;
    } else {
      var front := b[..|b| - 1];
      FlatIsConcatenation(a, front, vs);
      assert (a + b)[..|a + b| - 1] == a + front;
    }
  }

  /** Trivy: the vulnerabilities of all results, deduplicated across results. */
  method TranslateTrivy(report: Option<seq<seq<Vulnerability>>>, upper: char -> char) returns (out: seq<Finding>)
    ensures report.None? ==> out == []
    ensures report.Some? ==> out == Mapped(Firsts(Flat(report.value), Key), TrivyWith(upper))
    ensures report.Some? ==> Owed(Flat(report.value), out, (f, v) => TellsTrivy(f, v, upper))
  {
    if report.None? {
      return [];
    }
    var results := report.value;
    var seen: set<(string, string, string)> := {};
    out := [];
    for i := 0 to |results|
      invariant seen == KeysOf(Flat(results[..i]), Key)
      invariant out == Mapped(Firsts(Flat(results[..i]), Key), TrivyWith(upper))
    {
      out, seen := Collect(out, seen, results[i], TrivyWith(upper), Flat(results[..i]));
      assert results[..i + 1][..i] == results[..i];
    }
    assert results[..|results|] == results;
    FirstsAreOwed(Flat(results), TrivyWith(upper), (f, v) => TellsTrivy(f, v, upper));
  }

  /** Grype: one flat list of matches. */
  method TranslateGrype(report: Option<seq<Vulnerability>>, upper: char -> char) returns (out: seq<Finding>)
    ensures report.None? ==> out == []
    ensures report.Some? ==> out == Mapped(Firsts(report.value, Key), GrypeWith(upper))
    ensures report.Some? ==> Owed(report.value, out, (f, v) => TellsGrype(f, v, upper))
  {
    if report.None? {
      return [];
    }
    var seen;
    out, seen := Collect([], {}, report.value, GrypeWith(upper), []);
    assert [] + report.value == report.value;
    FirstsAreOwed(report.value, GrypeWith(upper), (f, v) => TellsGrype(f, v, upper));
  }

  /** The findings are the conversions of the first occurrences of each key, in report order:
      nothing is lost, nothing is repeated. */
  lemma TranslationIsFaithful(vs: seq<Vulnerability>, convert: Vulnerability -> Finding)
    requires forall v :: About(convert(v), v)
    ensures var out := Mapped(Firsts(vs, Key), convert);
            && KeysOf(out, FindingKey) == KeysOf(vs, Key)
            && |out| == |KeysOf(vs, Key)|
            && (forall i, j :: 0 <= i < j < |out| ==> FindingKey(out[i]) != FindingKey(out[j]))
            && (forall i :: 0 <= i < |out| ==>
                  var at := Picks(vs, Key)[i];
                  IsFirst(vs, Key, at) && out[i] == convert(vs[at]))
            && (forall i, j :: 0 <= i < j < |out| ==> Picks(vs, Key)[i] < Picks(vs, Key)[j])
  {
    var out, firsts, r := Mapped(Firsts(vs, Key), convert), Firsts(vs, Key), Picks(vs, Key);
    OnePickPerKey(vs, Key);
    PicksAreTheFirsts(vs, Key);
    SameKeys(firsts, convert);
    forall i | 0 <= i < |out|
      ensures IsFirst(vs, Key, r[i]) && FindingKey(out[i]) == Key(vs[r[i]])
    {
      assert r[i] in r;
    }
  }

  /** Both conversions are about what they convert. */
  lemma ConversionsAreAbout(upper: char -> char)
    ensures forall v :: About(TrivyWith(upper)(v), v) && About(GrypeWith(upper)(v), v)
  {
  }

  lemma SameKeys(vs: seq<Vulnerability>, convert: Vulnerability -> Finding)
    requires forall v :: FindingKey(convert(v)) == Key(v)
    ensures KeysOf(Mapped(vs, convert), FindingKey) == KeysOf(vs, Key)
  {
    var out := Mapped(vs, convert);
    assert forall i :: 0 <= i < |vs| ==> FindingKey(out[i]) == Key(vs[i]);
  }

  // ----- Severity counts -----

  ghost function Tally(fs: seq<Finding>): map<string, int> {
    if fs == [] then map[]
    else
      var counts, sev := Tally(fs[..|fs| - 1]), fs[|fs| - 1].severity;
      counts[sev := (if sev in counts then counts[sev] else 0) + 1]
  }

  method CountBySeverity(fs: seq<Finding>) returns (counts: map<string, int>)
    ensures counts == Tally(fs)
  {
    counts := map[];
    for i := 0 to |fs|
      invariant counts == Tally(fs[..i])
    {
      assert fs[..i + 1][..i] == fs[..i];
      var sev := fs[i].severity;
      counts := counts[sev := (if sev in counts then counts[sev] else 0) + 1];
    }
    assert fs[..|fs|] == fs;
  }

  ghost function WithSeverity(fs: seq<Finding>, sev: string): set<nat> {
    set i: nat | 0 <= i < |fs| && fs[i].severity == sev
  }

  lemma TallyStep(fs: seq<Finding>)
    requires fs != []
    ensures var counts, last := Tally(fs[..|fs| - 1]), fs[|fs| - 1].severity;
            Sum(Tally(fs)) == Sum(counts) + 1
  {
    var counts, last := Tally(fs[..|fs| - 1]), fs[|fs| - 1].severity;
    if last in counts {
      SumRemove(counts, last);
    } else {
      assert counts - {last} == counts;
    }
    SumUpdate(counts, last, (if last in counts then counts[last] else 0) + 1);
  }

  /** The counts add up to the number of findings. */
  lemma {:induction false} TallyAddsUp(fs: seq<Finding>)
    ensures Sum(Tally(fs)) == |fs|
  {
    if fs != [] {
      TallyAddsUp(fs[..|fs| - 1]);
      TallyStep(fs);
    }
  }

  /** Each severity is counted as often as it occurs. */
  lemma {:induction false} TallyCounts(fs: seq<Finding>, sev: string)
    ensures (if sev in Tally(fs) then Tally(fs)[sev] else 0) == |WithSeverity(fs, sev)|
  {
    if fs != [] {
      var n := |fs| - 1;
      var front := fs[..n];
      TallyCounts(front, sev);
      WithSeverityStep(fs, sev);
    }
  }

  lemma WithSeverityStep(fs: seq<Finding>, sev: string)
    requires fs != []
    ensures var n := |fs| - 1;
            |WithSeverity(fs, sev)| == |WithSeverity(fs[..n], sev)| + if fs[n].severity == sev then 1 else 0
  {
    var n := |fs| - 1;
    var before, after := WithSeverity(fs[..n], sev), WithSeverity(fs, sev);
    if fs[n].severity == sev {
      assert after == before + {n};
    } else {
      assert after == before;
    }
  }
}
