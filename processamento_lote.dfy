/** Batch isolation (src/processamento_lote.py): every directory entry whose
    name ends in `.gpx`, in any letter case, is analysed; an entry whose
    analysis fails is reported and skipped, and the loop goes on. */
module BatchProcessing {
  import opened Wrappers
  import opened Foreign
  import opened GpxReading
  import opened TrailAnalysis

  function LowerChar(c: char): char {
    if 'A' <= c <= 'Z' then (c as int + 32) as char else c
  }

  /** str.lower on the ASCII letters. */
  function Lower(s: string): (r: string)
    ensures |r| == |s| && forall i :: 0 <= i < |s| ==> r[i] == LowerChar(s[i])
  {
    seq(|s|, i requires 0 <= i < |s| => LowerChar(s[i]))
  }

  /** `name.lower().endswith('.gpx')`: the last four characters spell
      ".gpx" in any letter case. */
  predicate IsGpxName(name: string): (b: bool)
    ensures b <==> |name| >= 4 && Lower(name[|name| - 4..]) == ".gpx"
  {
    var l := Lower(name);
    assert |l| >= 4 ==> l[|l| - 4..] == Lower(name[|name| - 4..]);
    |l| >= 4 && l[|l| - 4..] == ".gpx"
  }

  lemma GpxNameExamples()
    ensures IsGpxName("X.GPX")
    ensures !IsGpxName("x.gpx.bak")
  {
    assert Lower("X.GPX")[1..] == ".gpx";
    assert Lower("x.gpx.bak")[5..][3] == 'k';
  }

  /** os.path.join(dir, name) with '/' as separator: the path ends with the
      name and, unless the name is absolute, starts with the folder, with
      exactly one '/' added when the folder does not already end in one. */
  function Join(dir: string, name: string): (p: string)
    ensures |p| >= |name| && p[|p| - |name|..] == name
    ensures |name| > 0 && name[0] == '/' ==> p == name
    ensures !(|name| > 0 && name[0] == '/') ==>
              && dir <= p
              && |p| == |dir| + |name| + (if dir == [] || dir[|dir| - 1] == '/' then 0 else 1)
  {
    if |name| > 0 && name[0] == '/' then name
    else if dir == [] || dir[|dir| - 1] == '/' then dir + name
    else dir + "/" + name
  }

  /** A listed name has no '/', so the path built from it ends in that very
      name and the trail is named after the entry. */
  lemma JoinedBasename(dir: string, name: string)
    requires '/' !in name
    ensures Basename(Join(dir, name)) == name
    ensures TrailName(Join(dir, name)) == StripExtension(name)
  {
    var p := Join(dir, name);
    var q := if dir == [] || dir[|dir| - 1] == '/' then dir else dir + "/";
    assert p == q + name;
    assert q == [] || q[|q| - 1] == '/';
    var r := LastIndexOf(p, '/');
    assert forall i :: |q| <= i < |p| ==> p[i] == name[i - |q|];
    assert |q| > 0 ==> p[|q| - 1] == '/';
    assert r == |q| - 1;
    assert p[|q|..] == name;
  }

  /** What analysing one listed entry gives: `analisar_trilha` on the joined
      path, with `load` standing for opening and parsing that path (None
      when that fails). */
  function Analysed(dir: string, entry: string, load: string -> Option<GpxFile>, lib: Libraries): Result<TrailRecord, AnalysisError> {
    var path := Join(dir, entry);
    AnalyseTrail(path, load(path), lib)
  }

  /** The record of a listed entry is named after the entry, extension removed. */
  lemma AnalysedName(dir: string, entry: string, load: string -> Option<GpxFile>, lib: Libraries)
    requires '/' !in entry
    ensures Analysed(dir, entry, load, lib).Success? ==>
              Analysed(dir, entry, load, lib).value.name == StripExtension(entry)
  {
    JoinedBasename(dir, entry);
  }

  /** Analysis of every entry of `dir`. */
  function AnalyseIn(dir: string, load: string -> Option<GpxFile>, lib: Libraries): string -> Result<TrailRecord, AnalysisError> {
    entry => Analysed(dir, entry, load, lib)
  }

  /** The records the loop collects, in listing order, when `outcome` gives
      each entry's analysis. */
  function BatchRecords(entries: seq<string>, outcome: string -> Result<TrailRecord, AnalysisError>): seq<TrailRecord> {
    if entries == [] then []
    else
      var before := BatchRecords(entries[..|entries| - 1], outcome);
      var entry := entries[|entries| - 1];
      if IsGpxName(entry) && outcome(entry).Success?
      then before + [outcome(entry).value]
      else before
  }

  /** The failures the loop reports: entry name and reason. */
  function BatchFailures(entries: seq<string>, outcome: string -> Result<TrailRecord, AnalysisError>): seq<(string, AnalysisError)> {
    if entries == [] then []
    else
      var before := BatchFailures(entries[..|entries| - 1], outcome);
      var entry := entries[|entries| - 1];
      if IsGpxName(entry) && outcome(entry).Failure?
      then before + [(entry, outcome(entry).error)]
      else before
  }

  function GpxEntries(entries: seq<string>): seq<string> {
    if entries == [] then []
    else
      var last := entries[|entries| - 1];
      GpxEntries(entries[..|entries| - 1]) + (if IsGpxName(last) then [last] else [])
  }

  /** `processar_pasta_gpx` over the directory listing `entries`. */
  method ProcessFolder(dir: string, entries: seq<string>, load: string -> Option<GpxFile>, lib: Libraries)
    returns (records: seq<TrailRecord>, failures: seq<(string, AnalysisError)>)
    ensures records == BatchRecords(entries, AnalyseIn(dir, load, lib))
    ensures failures == BatchFailures(entries, AnalyseIn(dir, load, lib))
  {
    ghost var outcome := AnalyseIn(dir, load, lib);
    records, failures := [], [];
    for i := 0 to |entries|
      invariant records == BatchRecords(entries[..i], outcome)
      invariant failures == BatchFailures(entries[..i], outcome)
    {
      var entry := entries[i];
      assert entries[..i + 1][..i] == entries[..i];
      if IsGpxName(entry) {
        var fullPath := Join(dir, entry);
        var result := AnalyseTrail(fullPath, load(fullPath), lib);
        assert result == outcome(entry);
        match result {
          case Success(record) =>
            records := records + [record];
          case Failure(reason) =>
            failures := failures + [(entry, reason)];
        }
      }
    }
    assert entries[..|entries|] == entries;
  }

  /** Every `.gpx` entry ends up either as exactly one record or as exactly
      one reported failure; no other entry leaves a trace. */
  lemma {:induction false} BatchAccounting(entries: seq<string>, outcome: string -> Result<TrailRecord, AnalysisError>)
    ensures |BatchRecords(entries, outcome)| + |BatchFailures(entries, outcome)| == |GpxEntries(entries)|
    ensures |GpxEntries(entries)| <= |entries|
    ensures |BatchRecords(entries, outcome)| <= |entries|
  {
    if entries != [] {
      BatchAccounting(entries[..|entries| - 1], outcome);
    }
  }

  /** The batch of a listing is the batch of its first part followed by the
      batch of the rest: each entry is processed on its own. */
  lemma {:induction false} BatchAppend(a: seq<string>, b: seq<string>, outcome: string -> Result<TrailRecord, AnalysisError>)
    ensures BatchRecords(a + b, outcome) == BatchRecords(a, outcome) + BatchRecords(b, outcome)
    decreases |b|
  {
    if b == [] {
      assert a + b == a;
    } else {
      assert (a + b)[..|a + b| - 1] == a + b[..|b| - 1];
      BatchAppend(a, b[..|b| - 1], outcome);
    }
  }

  /** Failure isolation: an entry that is skipped or whose analysis fails
      leaves the records of all the other entries exactly as they would be
      without it. */
  lemma FailingEntryIsolated(a: seq<string>, e: string, b: seq<string>, outcome: string -> Result<TrailRecord, AnalysisError>)
    requires !IsGpxName(e) || outcome(e).Failure?
    ensures BatchRecords(a + [e] + b, outcome) == BatchRecords(a + b, outcome)
  {
    BatchAppend(a + [e], b, outcome);
    BatchAppend(a, [e], outcome);
    BatchAppend(a, b, outcome);
    assert [e][..0] == [];
  }

  /** Each record is named after its entry, by `nameOf`, when the per-entry
      analysis names records that way. */
  lemma {:induction false} BatchRecordNames(entries: seq<string>, outcome: string -> Result<TrailRecord, AnalysisError>, nameOf: string -> string)
    requires forall i :: 0 <= i < |entries| ==> '/' !in entries[i]
    requires forall a :: '/' !in a && outcome(a).Success? ==> outcome(a).value.name == nameOf(a)
    ensures forall rec :: rec in BatchRecords(entries, outcome) ==>
              exists i :: 0 <= i < |entries| && IsGpxName(entries[i]) && rec.name == nameOf(entries[i])
  {
    if entries != [] {
      var init := entries[..|entries| - 1];
      BatchRecordNames(init, outcome, nameOf);
      forall rec | rec in BatchRecords(entries, outcome)
        ensures exists i :: 0 <= i < |entries| && IsGpxName(entries[i]) && rec.name == nameOf(entries[i])
      {
        if rec in BatchRecords(init, outcome) {
          var i :| 0 <= i < |init| && IsGpxName(init[i]) && rec.name == nameOf(init[i]);
          assert entries[i] == init[i];
        } else {
          assert rec.name == nameOf(entries[|entries| - 1]);
        }
      }
    }
  }

  /** In a folder, every record is named after a `.gpx` entry of the listing. */
  lemma FolderRecordNames(dir: string, entries: seq<string>, load: string -> Option<GpxFile>, lib: Libraries)
    requires forall i :: 0 <= i < |entries| ==> '/' !in entries[i]
    ensures forall rec :: rec in BatchRecords(entries, AnalyseIn(dir, load, lib)) ==>
              exists i :: 0 <= i < |entries| && IsGpxName(entries[i]) && rec.name == StripExtension(entries[i])
  {
    var outcome := AnalyseIn(dir, load, lib);
    forall a | '/' !in a && outcome(a).Success? ensures outcome(a).value.name == StripExtension(a) {
      assert outcome(a) == Analysed(dir, a, load, lib);
      AnalysedName(dir, a, load, lib);
    }
    BatchRecordNames(entries, outcome, StripExtension);
  }
}
