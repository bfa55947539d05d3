/** Translating a Clair report.  The packages are visited in the order a hash map yields them,
    which is any order; findings are deduplicated on a key glued together with bars. */
module Clair {
  import opened Prelude
  import opened Dedupe
  import opened Findings
  import Trim

  datatype Package = Package(name: string, version: string)

  datatype Vuln = Vuln(id: string, name: string, severity: string, fixedIn: string, description: string, links: string)

  datatype Report = Report(
    packageVulns: map<string, seq<string>>,
    packages: map<string, Package>,
    vulns: map<string, Vuln>
  )

  /** Lower case, as far as it matters: of the letters outside ASCII only these two have a
      lower case inside it. */
  function LowerChar(c: char): char {
    if 'A' <= c <= 'Z' then (c as int + 32) as char
    else if c == '\U{0130}' then 'i'
    else if c == '\U{212A}' then 'k'
    else c
  }

  function NormaliseSeverity(s: string): string {
    var lower := seq(|s|, i requires 0 <= i < |s| => LowerChar(s[i]));
    if lower == "critical" then "CRITICAL"
    else if lower == "high" then "HIGH"
    else if lower == "medium" then "MEDIUM"
    else if lower == "low" then "LOW"
    else if lower == "negligible" then "NEGLIGIBLE"
    else "UNKNOWN"
  }

  /** The words of a text separated by white space, given the word being read. */
  function Words(s: string, word: string): seq<string>
    decreases s
  {
    if s == [] then (if word == "" then [] else [word])
    else if Trim.Space(s[0]) then (if word == "" then [] else [word]) + Words(s[1..], "")
    else Words(s[1..], word + [s[0]])
  }

  function ToFinding(v: Vuln, p: Package): Finding {
    Finding(if v.name == "" then v.id else v.name, NormaliseSeverity(v.severity), p.name, p.version,
            v.fixedIn, v.description, Words(v.links, ""))
  }

  function Join(cve: string, package: string, version: string): string {
    cve + "|" + package + "|" + version
  }

  function Joined(f: Finding): string {
    Join(f.cve, f.package, f.version)
  }

  /** What one package contributes, before deduplication: nothing when its metadata is missing,
      and nothing for a vulnerability that is missing. */
  ghost function OfPackage(report: Report, id: string, vulnIds: seq<string>): seq<Finding> {
    if vulnIds == [] || id !in report.packages then []
    else
      var front, last := OfPackage(report, id, vulnIds[..|vulnIds| - 1]), vulnIds[|vulnIds| - 1];
      if last in report.vulns then front + [ToFinding(report.vulns[last], report.packages[id])] else front
  }

  ghost function Part(report: Report, id: string): seq<Finding> {
    if id in report.packageVulns then OfPackage(report, id, report.packageVulns[id]) else []
  }

  /** What the visit meets, package after package. */
  ghost function Visited(report: Report, order: seq<string>): seq<Finding> {
    if order == [] then [] else Visited(report, order[..|order| - 1]) + Part(report, order[|order| - 1])
  }

  /** An order in which the map can be iterated. */
  ghost predicate Listing(report: Report, order: seq<string>) {
    && (forall i, j :: 0 <= i < j < |order| ==> order[i] != order[j])
    && (forall id :: id in order <==> id in report.packageVulns)
  }

  /** What has been gathered after these findings were met. */
  ghost predicate Gathered(past: seq<Finding>, out: seq<Finding>, seen: set<string>, counts: map<string, int>) {
    seen == KeysOf(past, Joined) && out == Firsts(past, Joined) && counts == Tally(out)
  }

  /** One finding: a key already seen is skipped. */
  method Record(f: Finding, done: seq<Finding>, seen: set<string>, tally: map<string, int>, ghost past: seq<Finding>)
    returns (out: seq<Finding>, seen': set<string>, counts: map<string, int>)
    requires Gathered(past, done, seen, tally)
    ensures Gathered(past + [f], out, seen', counts)
  {
    GatherOne(past, f, done, seen, tally);
    if Joined(f) in seen {
      return done, seen, tally;
    }
    counts := OneMore(tally, f.severity);
    out, seen' := done + [f], seen + {Joined(f)};
  }

  /** The vulnerabilities of one package, given what has been gathered before it. */
  method ScanPackage(report: Report, id: string, done: seq<Finding>, seen: set<string>, tally: map<string, int>,
                     ghost before: seq<Finding>)
    returns (out: seq<Finding>, seen': set<string>, counts: map<string, int>)
    requires id in report.packageVulns && Gathered(before, done, seen, tally)
    ensures Gathered(before + Part(report, id), out, seen', counts)
  {
    out, seen', counts := done, seen, tally;
    assert before + [] == before;
    if id !in report.packages {
      return;
    }
    var p, ids := report.packages[id], report.packageVulns[id];
    ghost var past := before;
    for i := 0 to |ids|
      invariant past == before + OfPackage(report, id, ids[..i])
      invariant Gathered(past, out, seen', counts)
    {
      assert ids[..i + 1][..i] == ids[..i];
      if ids[i] in report.vulns {
        var f := ToFinding(report.vulns[ids[i]], p);
        assert before + OfPackage(report, id, ids[..i + 1]) == past + [f];
        out, seen', counts := Record(f, out, seen', counts, past);
        past := past + [f];
      }
    }
    assert ids[..|ids|] == ids;
  }

  function OneMore(counts: map<string, int>, sev: string): map<string, int> {
    counts[sev := (if sev in counts then counts[sev] else 0) + 1]
  }

  lemma GatherOne(past: seq<Finding>, f: Finding, out: seq<Finding>, seen: set<string>, counts: map<string, int>)
    requires Gathered(past, out, seen, counts)
    ensures Joined(f) in seen ==> Gathered(past + [f], out, seen, counts)
    ensures Joined(f) !in seen ==> Gathered(past + [f], out + [f], seen + {Joined(f)}, OneMore(counts, f.severity))
  {
    KeysOfAppend(past, f, Joined);
    FirstsAppend(past, f, Joined);
    TallyAppend(out, f);
  }

  lemma TallyAppend(out: seq<Finding>, f: Finding)
    ensures Tally(out + [f]) == OneMore(Tally(out), f.severity)
  {
    assert (out + [f])[..|out|] == out;
  }

  /** The translation, over whatever order the map yields. */
  method Translate(report: Report) returns (out: seq<Finding>, counts: map<string, int>, ghost order: seq<string>)
    ensures Listing(report, order)
    ensures out == Firsts(Visited(report, order), Joined)
    ensures counts == Tally(out)
  {
    var pending := report.packageVulns.Keys;
    var seen: set<string> := {};
    out, counts, order := [], map[], [];
    while pending != {}
      invariant pending <= report.packageVulns.Keys
      invariant forall i, j :: 0 <= i < j < |order| ==> order[i] != order[j]
      invariant forall id :: id in order <==> id in report.packageVulns && id !in pending
      invariant Gathered(Visited(report, order), out, seen, counts)
      decreases pending
    {
      var id :| id in pending;
      out, seen, counts := ScanPackage(report, id, out, seen, counts, Visited(report, order));
      assert (order + [id])[..|order|] == order;
      order, pending := order + [id], pending - {id};
    }
  }

  // ----- What the output owes to the report -----

  /** The report lists this vulnerability for this package, and knows both. */
  ghost predicate Listed(report: Report, id: string, vuln: string) {
    && id in report.packageVulns && vuln in report.packageVulns[id]
    && id in report.packages && vuln in report.vulns
  }

  /** The finding says what the report says of the vulnerability and the package; without a name
      the vulnerability goes by its id. */
  predicate TellsClair(f: Finding, v: Vuln, p: Package) {
    && f.package == p.name && f.version == p.version
    && (v.name != "" ==> f.cve == v.name) && (v.name == "" ==> f.cve == v.id)
    && f.severity == NormaliseSeverity(v.severity)
    && f.fixedIn == v.fixedIn && f.description == v.description && f.references == Words(v.links, "")
  }

  /** The part of a package: a finding for each of its listed vulnerabilities, and no other. */
  lemma {:induction false} PartHolds(report: Report, id: string, ids: seq<string>, f: Finding)
    ensures f in OfPackage(report, id, ids) <==>
            id in report.packages && exists vuln :: vuln in ids && vuln in report.vulns
                                                    && f == ToFinding(report.vulns[vuln], report.packages[id])
  {
    if ids != [] && id in report.packages {
      var front, last := ids[..|ids| - 1], ids[|ids| - 1];
      PartHolds(report, id, front, f);
      assert forall vuln :: vuln in ids <==> vuln in front || vuln == last;
    }
  }

  lemma {:induction false} VisitedHolds(report: Report, order: seq<string>, f: Finding)
    ensures f in Visited(report, order) <==> exists id :: id in order && f in Part(report, id)
  {
    if order != [] {
      var front, last := order[..|order| - 1], order[|order| - 1];
      VisitedHolds(report, front, f);
      assert forall id :: id in order <==> id in front || id == last;
    }
  }

  /** Every finding reported says what the report says of some listed vulnerability, and every
      listed vulnerability has a finding with its key; no two findings have one key. */
  lemma OutputIsOwed(report: Report, order: seq<string>)
    requires Listing(report, order)
    ensures var out := Firsts(Visited(report, order), Joined);
            && (forall f :: f in out ==> exists id, vuln :: Listed(report, id, vuln)
                                                            && TellsClair(f, report.vulns[vuln], report.packages[id]))
            && (forall id, vuln :: Listed(report, id, vuln) ==>
                  exists f :: f in out && HasKey(f, report.vulns[vuln], report.packages[id]))
            && (forall i, j :: 0 <= i < j < |out| ==> Joined(out[i]) != Joined(out[j]))
  {
    var xs := Visited(report, order);
    var out := Firsts(xs, Joined);
    forall f | f in out
      ensures exists id, vuln :: Listed(report, id, vuln) && TellsClair(f, report.vulns[vuln], report.packages[id])
    {
      var id, vuln := ListedFor(report, order, f);
    }
    forall id, vuln | Listed(report, id, vuln)
      ensures exists f :: f in out && HasKey(f, report.vulns[vuln], report.packages[id])
    {
      var f := FoundFor(report, order, id, vuln);
    }
    PicksAreTheFirsts(xs, Joined);
    forall i, j | 0 <= i < j < |out|
      ensures Joined(out[i]) != Joined(out[j])
    {
      var r := Picks(xs, Joined);
      assert r[j] in r && IsFirst(xs, Joined, r[j]) && r[i] < r[j];
    }
  }

  /** The finding has the key of this vulnerability in this package. */
  predicate HasKey(f: Finding, v: Vuln, p: Package) {
    f.cve + "|" + f.package + "|" + f.version == (if v.name == "" then v.id else v.name) + "|" + p.name + "|" + p.version
  }

  lemma ListedFor(report: Report, order: seq<string>, f: Finding) returns (id: string, vuln: string)
    requires Listing(report, order) && f in Firsts(Visited(report, order), Joined)
    ensures Listed(report, id, vuln) && TellsClair(f, report.vulns[vuln], report.packages[id])
  {
    VisitedHolds(report, order, f);
    id :| id in order && f in Part(report, id);
    PartHolds(report, id, report.packageVulns[id], f);
    vuln :| vuln in report.packageVulns[id] && vuln in report.vulns && f == ToFinding(report.vulns[vuln], report.packages[id]);
  }

  lemma FoundFor(report: Report, order: seq<string>, id: string, vuln: string) returns (f: Finding)
    requires Listing(report, order) && Listed(report, id, vuln)
    ensures f in Firsts(Visited(report, order), Joined) && HasKey(f, report.vulns[vuln], report.packages[id])
  {
    var xs := Visited(report, order);
    var g := ToFinding(report.vulns[vuln], report.packages[id]);
    PartHolds(report, id, report.packageVulns[id], g);
    VisitedHolds(report, order, g);
    var i :| 0 <= i < |xs| && xs[i] == g;
    OnePickPerKey(xs, Joined);
    assert Joined(xs[i]) in KeysOf(xs, Joined);
    var out := Firsts(xs, Joined);
    var j :| 0 <= j < |out| && Joined(out[j]) == Joined(g);
    f := out[j];
  }

  /** The words of a text: these equations determine them. */
  lemma {:induction false} WordsAreWords(a: string, b: string, word: string, blank: char)
    requires Trim.Space(blank)
    ensures Words(a + [blank] + b, word) == Words(a, word) + Words(b, "")
    ensures Words("", word) == if word == "" then [] else [word]
    decreases a
  {
    var s := a + [blank] + b;
    if a == "" {
      assert s[1..] == b && s[0] == blank;
    } else {
      assert s[1..] == a[1..] + [blank] + b && s[0] == a[0];
      if Trim.Space(a[0]) {
        WordsAreWords(a[1..], b, "", blank);
      } else {
        WordsAreWords(a[1..], b, word + [a[0]], blank);
      }
    }
  }

  lemma {:induction false} OneWord(a: string, word: string)
    requires forall i :: 0 <= i < |a| ==> !Trim.Space(a[i])
    requires word + a != ""
    ensures Words(a, word) == [word + a]
    decreases a
  {
    if a == "" {
      assert word + a == word;
    } else {
      OneWord(a[1..], word + [a[0]]);
      assert word + [a[0]] + a[1..] == word + a;
    }
  }

  /** The two texts differ in the case of their letters at most. */
  ghost predicate SameLetters(s: string, t: string) {
    |s| == |t| && forall i :: 0 <= i < |s| ==> LowerChar(s[i]) == LowerChar(t[i])
  }

  /** The five named severities are recognised whatever their case, and nothing else is. */
  lemma SeveritiesAreNormalised(s: string)
    ensures NormaliseSeverity(s) == "CRITICAL" <==> SameLetters(s, "critical")
    ensures NormaliseSeverity(s) == "HIGH" <==> SameLetters(s, "high")
    ensures NormaliseSeverity(s) == "MEDIUM" <==> SameLetters(s, "medium")
    ensures NormaliseSeverity(s) == "LOW" <==> SameLetters(s, "low")
    ensures NormaliseSeverity(s) == "NEGLIGIBLE" <==> SameLetters(s, "negligible")
    ensures NormaliseSeverity(s) in {"CRITICAL", "HIGH", "MEDIUM", "LOW", "NEGLIGIBLE", "UNKNOWN"}
  {
    var lower := seq(|s|, i requires 0 <= i < |s| => LowerChar(s[i]));
    IsLowerOf(s, lower, "critical");
    IsLowerOf(s, lower, "high");
    IsLowerOf(s, lower, "medium");
    IsLowerOf(s, lower, "low");
    IsLowerOf(s, lower, "negligible");
    SeveritiesDiffer();
  }

  lemma IsLowerOf(s: string, lower: string, t: string)
    requires |lower| == |s| && (forall i :: 0 <= i < |s| ==> lower[i] == LowerChar(s[i]))
    requires forall i :: 0 <= i < |t| ==> LowerChar(t[i]) == t[i]
    ensures lower == t <==> SameLetters(s, t)
  {
  }

  lemma SeveritiesDiffer()
    ensures "CRITICAL" != "HIGH" && "CRITICAL" != "MEDIUM" && "CRITICAL" != "LOW" && "CRITICAL" != "NEGLIGIBLE" && "CRITICAL" != "UNKNOWN"
    ensures "HIGH" != "MEDIUM" && "HIGH" != "LOW" && "HIGH" != "NEGLIGIBLE" && "HIGH" != "UNKNOWN"
    ensures "MEDIUM" != "LOW" && "MEDIUM" != "NEGLIGIBLE" && "MEDIUM" != "UNKNOWN"
    ensures "LOW" != "NEGLIGIBLE" && "LOW" != "UNKNOWN" && "NEGLIGIBLE" != "UNKNOWN"
  {
    assert "CRITICAL"[0] == 'C' && "HIGH"[0] == 'H' && "MEDIUM"[0] == 'M' && "LOW"[0] == 'L';
    assert "NEGLIGIBLE"[0] == 'N' && "UNKNOWN"[0] == 'U';
  }

  // ----- Order independence -----

  lemma {:induction false} KeyVisited(report: Report, order: seq<string>, k: string)
    ensures k in KeysOf(Visited(report, order), Joined) <==>
            exists id :: id in order && k in KeysOf(Part(report, id), Joined)
  {
    if order != [] {
      var front, last := order[..|order| - 1], order[|order| - 1];
      KeyVisited(report, front, k);
      KeysOfConcat(Visited(report, front), Part(report, last), Joined);
      assert forall id :: id in order <==> id in front || id == last;
    }
  }

  /** Whatever the iteration order, the same keys are reported, and as many findings. */
  lemma OrderDoesNotChangeKeys(report: Report, order: seq<string>, order': seq<string>)
    requires Listing(report, order) && Listing(report, order')
    ensures var out, out' := Firsts(Visited(report, order), Joined), Firsts(Visited(report, order'), Joined);
            KeysOf(out, Joined) == KeysOf(out', Joined) && |out| == |out'|
  {
    OnePickPerKey(Visited(report, order), Joined);
    OnePickPerKey(Visited(report, order'), Joined);
    forall k
      ensures k in KeysOf(Visited(report, order), Joined) <==> k in KeysOf(Visited(report, order'), Joined)
    {
      KeyVisited(report, order, k);
      KeyVisited(report, order', k);
    }
    assert KeysOf(Visited(report, order), Joined) == KeysOf(Visited(report, order'), Joined);
  }

  /** A glued key belongs to one vulnerability, package and version exactly when none of the
      three contains a bar. */
  lemma JoinIsUnambiguousExactlyWithoutBars(cve: string, package: string, version: string)
    ensures (forall c, p, v :: Join(c, p, v) == Join(cve, package, version) ==> (c, p, v) == (cve, package, version))
            <==> '|' !in cve && '|' !in package && '|' !in version
  {
    if '|' !in cve && '|' !in package && '|' !in version {
      forall c, p, v | Join(c, p, v) == Join(cve, package, version)
        ensures (c, p, v) == (cve, package, version)
      {
        JoinInjective(cve, package, version, c, p, v);
      }
    } else {
      var c, p, v := AnotherSplit(cve, package, version);
    }
  }

  /** A bar inside one of the three can be read as a bar between two of them. */
  lemma AnotherSplit(cve: string, package: string, version: string) returns (c: string, p: string, v: string)
    requires '|' in cve || '|' in package || '|' in version
    ensures Join(c, p, v) == Join(cve, package, version) && (c, p, v) != (cve, package, version)
  {
    if '|' in cve {
      var a, b := AtBar(cve);
      c, p, v := a, b + "|" + package, version;
      assert a + "|" + (b + "|" + package) == a + "|" + b + "|" + package;
    } else if '|' in package {
      var a, b := AtBar(package);
      c, p, v := cve + "|" + a, b, version;
      assert cve + "|" + a + "|" + b == cve + "|" + (a + "|" + b);
    } else {
      var a, b := AtBar(version);
      c, p, v := cve, package + "|" + a, b;
      assert cve + "|" + (package + "|" + a) + "|" + b == cve + "|" + package + "|" + (a + "|" + b);
    }
  }

  lemma AtBar(s: string) returns (a: string, b: string)
    requires '|' in s
    ensures s == a + "|" + b
  {
    var i :| 0 <= i < |s| && s[i] == '|';
    a, b := s[..i], s[i + 1..];
  }

  lemma JoinInjective(cve: string, package: string, version: string, c: string, p: string, v: string)
    requires '|' !in cve && '|' !in package && '|' !in version
    requires Join(c, p, v) == Join(cve, package, version)
    ensures (c, p, v) == (cve, package, version)
  {
    var s := Join(cve, package, version);
    NoOtherBars(cve, package, version, |c|);
    NoOtherBars(cve, package, version, |c| + 1 + |p|);
    assert s[|c|] == '|' && s[|c| + 1 + |p|] == '|';
    assert |c| == |cve| && |p| == |package|;
    assert c == s[..|c|] && p == s[|c| + 1..|c| + 1 + |p|] && v == s[|c| + |p| + 2..];
    assert cve == s[..|c|] && package == s[|c| + 1..|c| + 1 + |p|] && version == s[|c| + |p| + 2..];
  }

  lemma NoOtherBars(cve: string, package: string, version: string, i: nat)
    requires '|' !in cve && '|' !in package && '|' !in version
    requires i < |Join(cve, package, version)|
    ensures i == |cve| || i == |cve| + 1 + |package| || Join(cve, package, version)[i] != '|'
  {
    var s := Join(cve, package, version);
    if i < |cve| {
      assert s[i] == cve[i];
    } else if |cve| < i < |cve| + 1 + |package| {
      assert s[i] == package[i - |cve| - 1];
    } else if i > |cve| + 1 + |package| {
      assert s[i] == version[i - |cve| - |package| - 2];
    }
  }

  /** Without bars, deduplicating on the glued key is deduplicating on the vulnerability, the
      package and the version, so no such triple is lost and none is repeated. */
  lemma NoTripleLostWithoutBars(report: Report, order: seq<string>)
    requires forall f :: f in Visited(report, order) ==> '|' !in f.cve && '|' !in f.package && '|' !in f.version
    ensures var xs := Visited(report, order);
            && Firsts(xs, Joined) == Firsts(xs, FindingKey)
            && KeysOf(Firsts(xs, Joined), FindingKey) == KeysOf(xs, FindingKey)
            && |Firsts(xs, Joined)| == |KeysOf(xs, FindingKey)|
  {
    var xs := Visited(report, order);
    forall i, j | 0 <= i < |xs| && 0 <= j < |xs|
      ensures Joined(xs[i]) == Joined(xs[j]) <==> FindingKey(xs[i]) == FindingKey(xs[j])
    {
      var f, g := xs[i], xs[j];
      if Joined(f) == Joined(g) {
        JoinInjective(f.cve, f.package, f.version, g.cve, g.package, g.version);
      }
    }
    SameFirsts(xs, Joined, FindingKey);
    OnePickPerKey(xs, FindingKey);
  }

  // ----- Which of several findings with one key is reported -----

  ghost function FirstWith(xs: seq<Finding>, k: string): Option<Finding> {
    if xs == [] then None
    else
      var front, last := FirstWith(xs[..|xs| - 1], k), xs[|xs| - 1];
      if front.Some? then front else if Joined(last) == k then Some(last) else None
  }

  lemma {:induction false} FirstWithKey(xs: seq<Finding>, k: string)
    ensures FirstWith(xs, k).Some? <==> k in KeysOf(xs, Joined)
  {
    if xs != [] {
      var n := |xs| - 1;
      FirstWithKey(xs[..n], k);
      KeysOfAppend(xs[..n], xs[n], Joined);
      assert xs == xs[..n] + [xs[n]];
    }
  }

  lemma FirstWithAppend(xs: seq<Finding>, x: Finding, k: string)
    ensures FirstWith(xs + [x], k) ==
            if FirstWith(xs, k).Some? then FirstWith(xs, k) else if Joined(x) == k then Some(x) else None
  {
    assert (xs + [x])[..|xs|] == xs;
  }

  /** A finding is reported exactly when it is the first met with its key. */
  lemma {:induction false} ReportedExactlyWhenFirst(xs: seq<Finding>, f: Finding)
    ensures f in Firsts(xs, Joined) <==> FirstWith(xs, Joined(f)) == Some(f)
  {
    if xs != [] {
      var front, last := xs[..|xs| - 1], xs[|xs| - 1];
      ReportedExactlyWhenFirst(front, f);
      ReportedStep(front, last, f);
      assert xs == front + [last];
    }
  }

  lemma ReportedStep(xs: seq<Finding>, x: Finding, f: Finding)
    requires f in Firsts(xs, Joined) <==> FirstWith(xs, Joined(f)) == Some(f)
    ensures f in Firsts(xs + [x], Joined) <==> FirstWith(xs + [x], Joined(f)) == Some(f)
  {
    FirstWithKey(xs, Joined(x));
    FirstsAppend(xs, x, Joined);
    FirstWithAppend(xs, x, Joined(f));
  }

  lemma {:induction false} FirstWithConcat(xs: seq<Finding>, ys: seq<Finding>, k: string)
    ensures FirstWith(xs + ys, k) == if FirstWith(xs, k).Some? then FirstWith(xs, k) else FirstWith(ys, k)
  {
    if ys == [] {
      assert xs + ys == xs;
    } else {
      FirstWithConcat(xs, ys[..|ys| - 1], k);
      assert (xs + ys)[..|xs + ys| - 1] == xs + ys[..|ys| - 1];
    }
  }

  lemma {:induction false} VisitedFrom(report: Report, id: string, rest: seq<string>)
    ensures Visited(report, [id] + rest) == Part(report, id) + Visited(report, rest)
  {
    var order := [id] + rest;
    if rest == [] {
      assert Visited(report, order[..0]) == [];
      assert order[..|order| - 1] == order[..0];
    } else {
      VisitedFrom(report, id, rest[..|rest| - 1]);
      assert order[..|order| - 1] == [id] + rest[..|rest| - 1];
    }
  }

  /** What is reported for a key comes from some package, and is the first that one has. */
  lemma {:induction false} FromSomePackage(report: Report, order: seq<string>, k: string) returns (id: string)
    requires FirstWith(Visited(report, order), k).Some?
    ensures id in order && FirstWith(Visited(report, order), k) == FirstWith(Part(report, id), k)
  {
    var front, last := order[..|order| - 1], order[|order| - 1];
    FirstWithConcat(Visited(report, front), Part(report, last), k);
    if FirstWith(Visited(report, front), k).Some? {
      id := FromSomePackage(report, front, k);
    } else {
      id := last;
    }
  }

  /** Some order visits a given package first. */
  lemma ListingFrom(report: Report, id: string) returns (rest: seq<string>)
    requires id in report.packageVulns
    ensures Listing(report, [id] + rest)
  {
    rest := Enumerate(report.packageVulns.Keys - {id});
  }

  lemma {:induction false} Enumerate(ids: set<string>) returns (order: seq<string>)
    ensures forall i, j :: 0 <= i < j < |order| ==> order[i] != order[j]
    ensures forall id :: id in order <==> id in ids
  {
    if ids == {} {
      order := [];
    } else {
      var id :| id in ids;
      var rest := Enumerate(ids - {id});
      order := rest + [id];
    }
  }

  ghost function Seen<T>(f: Option<Finding>, view: Finding -> T): Option<T> {
    if f.Some? then Some(view(f.value)) else None
  }

  /** Any two packages that share a key agree on (what one looks at of) their first finding. */
  ghost predicate PackagesAgree<T(!new)>(report: Report, view: Finding -> T) {
    forall id, id', k ::
      id in report.packageVulns && id' in report.packageVulns
      && FirstWith(Part(report, id), k).Some? && FirstWith(Part(report, id'), k).Some?
      ==> Seen(FirstWith(Part(report, id), k), view) == Seen(FirstWith(Part(report, id'), k), view)
  }

  /** No two iteration orders show a difference for any key. */
  ghost predicate OrderDoesNotShow<T(!new)>(report: Report, view: Finding -> T) {
    forall order, order', k :: Listing(report, order) && Listing(report, order')
      ==> Seen(FirstWith(Visited(report, order), k), view) == Seen(FirstWith(Visited(report, order'), k), view)
  }

  /** The severity (or anything else) reported for each key is independent of the iteration
      order exactly when the packages agree on it. */
  lemma OrderDoesNotShowExactlyWhenPackagesAgree<T(!new)>(report: Report, view: Finding -> T)
    ensures OrderDoesNotShow(report, view) <==> PackagesAgree(report, view)
  {
    if PackagesAgree(report, view) {
      forall order, order', k | Listing(report, order) && Listing(report, order')
        ensures Seen(FirstWith(Visited(report, order), k), view) == Seen(FirstWith(Visited(report, order'), k), view)
      {
        AgreementHidesOrder(report, view, order, order', k);
      }
    }
    if OrderDoesNotShow(report, view) {
      forall id, id', k |
        id in report.packageVulns && id' in report.packageVulns
        && FirstWith(Part(report, id), k).Some? && FirstWith(Part(report, id'), k).Some?
        ensures Seen(FirstWith(Part(report, id), k), view) == Seen(FirstWith(Part(report, id'), k), view)
      {
        var order := FirstVisited(report, id, k);
        var order' := FirstVisited(report, id', k);
      }
    }
  }

  /** Visiting a package first makes its first finding the one reported. */
  lemma FirstVisited(report: Report, id: string, k: string) returns (order: seq<string>)
    requires id in report.packageVulns && FirstWith(Part(report, id), k).Some?
    ensures Listing(report, order) && FirstWith(Visited(report, order), k) == FirstWith(Part(report, id), k)
  {
    var rest := ListingFrom(report, id);
    VisitedFrom(report, id, rest);
    FirstWithConcat(Part(report, id), Visited(report, rest), k);
    order := [id] + rest;
  }

  lemma AgreementHidesOrder<T(!new)>(report: Report, view: Finding -> T, order: seq<string>, order': seq<string>, k: string)
    requires PackagesAgree(report, view) && Listing(report, order) && Listing(report, order')
    ensures Seen(FirstWith(Visited(report, order), k), view) == Seen(FirstWith(Visited(report, order'), k), view)
  {
    FirstWithKey(Visited(report, order), k);
    FirstWithKey(Visited(report, order'), k);
    KeyVisited(report, order, k);
    KeyVisited(report, order', k);
    if FirstWith(Visited(report, order), k).Some? {
      var id := FromSomePackage(report, order, k);
      var id' := FromSomePackage(report, order', k);
    }
  }

  // ----- Severity counts -----

  function CountOf(counts: map<string, int>, sev: string): int {
    if sev in counts then counts[sev] else 0
  }

  ghost function KeysWith(xs: seq<Finding>, sev: string): set<string> {
    set k | k in KeysOf(xs, Joined) && Seen(FirstWith(xs, k), (f: Finding) => f.severity) == Some(sev)
  }

  lemma KeysWithAppend(xs: seq<Finding>, x: Finding, sev: string)
    ensures KeysWith(xs + [x], sev) ==
            KeysWith(xs, sev) + if Joined(x) !in KeysOf(xs, Joined) && x.severity == sev then {Joined(x)} else {}
  {
    assert (xs + [x])[..|xs|] == xs;
    KeysOfAppend(xs, x, Joined);
    forall k ensures FirstWith(xs, k).Some? <==> k in KeysOf(xs, Joined) { FirstWithKey(xs, k); }
  }

  lemma {:induction false} CountsByKey(xs: seq<Finding>, sev: string)
    ensures |WithSeverity(Firsts(xs, Joined), sev)| == |KeysWith(xs, sev)|
  {
    if xs != [] {
      var n := |xs| - 1;
      var front, last := xs[..n], xs[n];
      CountsByKey(front, sev);
      assert xs == front + [last];
      KeysWithAppend(front, last, sev);
      FirstsAppend(front, last, Joined);
      if Joined(last) !in KeysOf(front, Joined) {
        var out := Firsts(front, Joined);
        WithSeverityStep(out + [last], sev);
        assert (out + [last])[..|out|] == out;
      }
    }
  }

  /** When the packages agree on severities, every iteration order gives the same counts. */
  lemma CountsDoNotShowOrder(report: Report, order: seq<string>, order': seq<string>, sev: string)
    requires Listing(report, order) && Listing(report, order')
    requires PackagesAgree(report, (f: Finding) => f.severity)
    ensures CountOf(Tally(Firsts(Visited(report, order), Joined)), sev)
            == CountOf(Tally(Firsts(Visited(report, order'), Joined)), sev)
  {
    var xs, xs' := Visited(report, order), Visited(report, order');
    TallyCounts(Firsts(xs, Joined), sev);
    TallyCounts(Firsts(xs', Joined), sev);
    CountsByKey(xs, sev);
    CountsByKey(xs', sev);
    forall k
      ensures k in KeysWith(xs, sev) <==> k in KeysWith(xs', sev)
    {
      AgreementHidesOrder(report, (f: Finding) => f.severity, order, order', k);
      FirstWithKey(xs, k);
      FirstWithKey(xs', k);
    }
    assert KeysWith(xs, sev) == KeysWith(xs', sev);
  }

  /** Two advisories of one name, filed under two records of one package: the severity
      reported depends on the iteration order. */
  lemma SeverityDependsOnOrder()
    ensures exists report, order, order' ::
              && Listing(report, order) && Listing(report, order')
              && Firsts(Visited(report, order), Joined) != Firsts(Visited(report, order'), Joined)
              && CountOf(Tally(Firsts(Visited(report, order), Joined)), "HIGH")
                 != CountOf(Tally(Firsts(Visited(report, order'), Joined)), "HIGH")
  {
    DisputedOutcomes();
    ListsDisputed();
  }

  ghost predicate Reports(report: Report, order: seq<string>, f: Finding) {
    && Firsts(Visited(report, order), Joined) == [f]
    && Tally(Firsts(Visited(report, order), Joined)) == map[f.severity := 1]
  }

  /** The first of the two packages visited decides. */
  lemma DisputedOutcomes()
    ensures exists f: Finding, g: Finding :: f.severity == "HIGH" && g.severity == "UNKNOWN"
                                             && Reports(Disputed(), ["a", "b"], f) && Reports(Disputed(), ["b", "a"], g)
  {
    var report := Disputed();
    var f, g := ToFinding(report.vulns["1"], report.packages["a"]), ToFinding(report.vulns["2"], report.packages["b"]);
    SinglePart(report, "a", "1");
    SinglePart(report, "b", "2");
    TwoPackages(report, "a", "b", f, g);
    TwoPackages(report, "b", "a", g, f);
    NormaliseHigh();
    assert Reports(report, ["a", "b"], f) && Reports(report, ["b", "a"], g);
  }

  function Disputed(): Report {
    var p := Package("openssl", "3");
    Report(map["a" := ["1"], "b" := ["2"]], map["a" := p, "b" := p],
           map["1" := Vuln("1", "C", "High", "", "", ""), "2" := Vuln("2", "C", "", "", "", "")])
  }

  lemma ListsDisputed()
    ensures Listing(Disputed(), ["a", "b"]) && Listing(Disputed(), ["b", "a"])
  {
    assert "a"[0] != "b"[0];
  }

  lemma NormaliseHigh()
    ensures NormaliseSeverity("High") == "HIGH" && NormaliseSeverity("") == "UNKNOWN"
  {
    var s := "High";
    var lower := seq(|s|, i requires 0 <= i < |s| => LowerChar(s[i]));
    assert lower == "high";
  }

  lemma SinglePart(report: Report, id: string, vuln: string)
    requires id in report.packageVulns && report.packageVulns[id] == [vuln]
    requires id in report.packages && vuln in report.vulns
    ensures Part(report, id) == [ToFinding(report.vulns[vuln], report.packages[id])]
  {
    assert [vuln][..0] == [];
    assert OfPackage(report, id, []) == [];
  }

  lemma TwoPackages(report: Report, id: string, id': string, f: Finding, g: Finding)
    requires Part(report, id) == [f] && Part(report, id') == [g] && Joined(f) == Joined(g)
    ensures Firsts(Visited(report, [id, id']), Joined) == [f]
    ensures Tally(Firsts(Visited(report, [id, id']), Joined)) == map[f.severity := 1]
  {
    assert [id, id'] == [id] + [id'] && [id'] == [id'] + [];
    VisitedFrom(report, id, [id']);
    VisitedFrom(report, id', []);
    assert Visited(report, [id, id']) == [f] + [g];
    FirstsAppend([f], g, Joined);
    FirstsAppend([], f, Joined);
    assert [] + [f] == [f];
    KeysOfAppend([], f, Joined);
    assert [f][..0] == [];
  }
}
