/**
 * What the export promises, stated over the loop's specification functions
 * `WriteTracks` and `ExportRun` (which the methods `WritePlaylist` and
 * `Export` are proved to compute), against reference definitions.
 */
module ExportProperties {
  import opened Wrappers
  import opened PyStr
  import opened PosixPath
  import opened ElementTree
  import opened PlaylistExport

  /** The index of the first outcome that is a failure, or `|rs|`. */
  function FirstFailure(rs: seq<Result<string, Error>>): (k: nat)
    ensures k <= |rs|
    ensures forall i :: 0 <= i < k ==> rs[i].Success?
    ensures k < |rs| ==> rs[k].Failure?
    decreases |rs|
  {
    if rs == [] then 0
    else
      var k := FirstFailure(rs[..|rs| - 1]);
      if k < |rs| - 1 || rs[|rs| - 1].Failure? then k else |rs|
  }

  /** The paths of outcomes that all succeeded, in order. */
  function Paths(rs: seq<Result<string, Error>>): (ps: seq<string>)
    requires forall i :: 0 <= i < |rs| ==> rs[i].Success?
    ensures |ps| == |rs|
    ensures forall i :: 0 <= i < |rs| ==> rs[i] == Success(ps[i])
    decreases |rs|
  {
    if rs == [] then [] else Paths(rs[..|rs| - 1]) + [rs[|rs| - 1].value]
  }

  /** An M3U body: each path followed by a newline. */
  function Lines(ps: seq<string>): string {
    if ps == [] then "" else ps[0] + "\n" + Lines(ps[1..])
  }

  lemma {:induction false} LinesAppend(ps: seq<string>, p: string)
    ensures Lines(ps + [p]) == Lines(ps) + p + "\n"
    decreases |ps|
  {
    if ps == [] {
      assert [] + [p] == [p];
    } else {
      assert (ps + [p])[1..] == ps[1..] + [p];
      LinesAppend(ps[1..], p);
    }
  }

  /**
   * The inner loop writes `path + "\n"` for each track in document order up
   * to the first one that fails, and stops with that track's error.
   */
  lemma {:induction false} WriteLinesSpec(rs: seq<Result<string, Error>>)
    ensures var k := FirstFailure(rs);
      WriteLines(rs) == Written(Lines(Paths(rs[..k])), if k < |rs| then Some(rs[k].error) else None)
    decreases |rs|
  {
    if rs != [] {
      var n := |rs|;
      var init := rs[..n - 1];
      WriteLinesSpec(init);
      var k := FirstFailure(init);
      assert forall i :: 0 <= i < n - 1 ==> init[i] == rs[i];
      if k < n - 1 {
        assert rs[..k] == init[..k];
      } else {
        assert init[..k] == init;
        if rs[n - 1].Success? {
          assert rs[..n] == rs;
          LinesAppend(Paths(init), rs[n - 1].value);
        }
      }
    }
  }

  /** The same for the tracks of a playlist. */
  lemma WriteTracksSpec(ts: seq<Element>)
    ensures var rs := Outcomes(ts); var k := FirstFailure(rs);
      && (forall i :: 0 <= i < k ==> ResolveTrack(ts[i]).Success?)
      && (k < |ts| ==> ResolveTrack(ts[k]).Failure?)
      && WriteTracks(ts) == Written(Lines(Paths(rs[..k])), if k < |ts| then Some(ResolveTrack(ts[k]).error) else None)
  {
    var rs := Outcomes(ts);
    WriteLinesSpec(rs);
    assert forall i :: 0 <= i < |ts| ==> rs[i] == ResolveTrack(ts[i]);
  }

  lemma {:induction false} LinesAsJoin(ps: seq<string>)
    ensures JoinWith("\n", ps + [""]) == Lines(ps)
    decreases |ps|
  {
    if ps != [] {
      assert (ps + [""])[1..] == ps[1..] + [""];
      LinesAsJoin(ps[1..]);
    }
  }

  /** Reading an M3U body back line by line gives the paths, as long as no path holds a newline. */
  lemma LinesSplit(ps: seq<string>)
    requires forall i :: 0 <= i < |ps| ==> '\n' !in ps[i]
    ensures Split(Lines(ps), "\n") == ps + [""]
  {
    var parts := ps + [""];
    LinesAsJoin(ps);
    forall k | 0 <= k < |parts| - 1 ensures FirstAt(parts[k] + "\n", "\n", |parts[k]|) {
      assert parts[k] == ps[k];
      FirstAtLead(ps[k], "\n");
    }
    assert !OccursAt("", "\n", 0);
    assert IsSplitOf(Lines(ps), "\n", parts);
    SplitUnique(Lines(ps), "\n", parts);
  }

  /** Playlist `p` has a name that is not excluded and is written to `f`. */
  predicate Writes(outputPath: string, p: Element, f: string) {
    match Get(p, "NAME")
    case None => false
    case Some(name) => !IsExcluded(name) && OutputFile(outputPath, name) == f
  }

  /** Action `a` writes file `f`. */
  predicate WritesTo(a: Action, f: string) {
    a.Write? && a.file == f
  }

  /** A playlist's action writes `f` exactly when the playlist is written to `f`. */
  lemma ActionWrites(outputPath: string, nodes: seq<Element>, k: nat, f: string)
    requires k < |nodes|
    ensures WritesTo(Actions(outputPath, nodes)[k], f) <==> Writes(outputPath, nodes[k], f)
    ensures WritesTo(Actions(outputPath, nodes)[k], f) ==> Actions(outputPath, nodes)[k].written == WriteTracks(Tracks(nodes[k]))
  {
  }

  /** The earlier iterations of a run that raised nothing raised nothing either. */
  lemma RunActionsLast(before: map<string, string>, acts: seq<Action>)
    requires |acts| > 0 && RunActions(before, acts).error.None?
    ensures RunActions(before, acts[..|acts| - 1]).error.None?
    ensures RunActions(before, acts) == Apply(RunActions(before, acts[..|acts| - 1]).files, acts[|acts| - 1])
  {
  }

  /** Without an exception, the files are those from before and those some action writes. */
  lemma {:induction false} RunFileSet(before: map<string, string>, acts: seq<Action>, f: string)
    requires RunActions(before, acts).error.None?
    ensures f in RunActions(before, acts).files <==>
      f in before || exists k :: 0 <= k < |acts| && WritesTo(acts[k], f)
    decreases |acts|
  {
    if acts != [] {
      var n := |acts|;
      var init := acts[..n - 1];
      RunActionsLast(before, acts);
      RunFileSet(before, init, f);
      if exists k :: 0 <= k < n && WritesTo(acts[k], f) {
        var k :| 0 <= k < n && WritesTo(acts[k], f);
        if k < n - 1 { assert init[k] == acts[k]; }
      }
      if exists k :: 0 <= k < n - 1 && WritesTo(init[k], f) {
        var k :| 0 <= k < n - 1 && WritesTo(init[k], f);
        assert init[k] == acts[k];
      }
    }
  }

  /** A file no action writes keeps what it held before, whether or not the run raised. */
  lemma {:induction false} RunUntouched(before: map<string, string>, acts: seq<Action>, f: string)
    requires forall k :: 0 <= k < |acts| ==> !WritesTo(acts[k], f)
    ensures f in RunActions(before, acts).files <==> f in before
    ensures f in before ==> RunActions(before, acts).files[f] == before[f]
    decreases |acts|
  {
    if acts != [] {
      var n := |acts|;
      var init := acts[..n - 1];
      assert forall k :: 0 <= k < n - 1 ==> init[k] == acts[k];
      RunUntouched(before, init, f);
    }
  }

  /** Without an exception, a file holds what its last writer wrote, and that writer raised nothing. */
  lemma {:induction false} RunLastWriteWins(before: map<string, string>, acts: seq<Action>, i: nat, f: string)
    requires RunActions(before, acts).error.None?
    requires i < |acts| && WritesTo(acts[i], f)
    requires forall j :: i < j < |acts| ==> !WritesTo(acts[j], f)
    ensures f in RunActions(before, acts).files
    ensures acts[i].written.error.None?
    ensures RunActions(before, acts).files[f] == acts[i].written.text
    decreases |acts|
  {
    var n := |acts|;
    var init := acts[..n - 1];
    RunActionsLast(before, acts);
    if i < n - 1 {
      assert init[i] == acts[i];
      assert forall j :: i < j < |init| ==> init[j] == acts[j];
      RunLastWriteWins(before, init, i, f);
    }
  }

  /** A run without an exception creates exactly the files of the playlists that are not excluded. */
  lemma ExportFileSet(before: map<string, string>, outputPath: string, nodes: seq<Element>, f: string)
    requires ExportRun(before, outputPath, nodes).error.None?
    ensures f in ExportRun(before, outputPath, nodes).files <==>
      f in before || exists k :: 0 <= k < |nodes| && Writes(outputPath, nodes[k], f)
  {
    var acts := Actions(outputPath, nodes);
    RunFileSet(before, acts, f);
    forall k | 0 <= k < |nodes| ensures WritesTo(acts[k], f) <==> Writes(outputPath, nodes[k], f) {
      ActionWrites(outputPath, nodes, k, f);
    }
  }

  /** A file no playlist writes keeps what it held before, whether or not the run raised. */
  lemma ExportUntouched(before: map<string, string>, outputPath: string, nodes: seq<Element>, f: string)
    requires forall k :: 0 <= k < |nodes| ==> !Writes(outputPath, nodes[k], f)
    ensures f in ExportRun(before, outputPath, nodes).files <==> f in before
    ensures f in before ==> ExportRun(before, outputPath, nodes).files[f] == before[f]
  {
    var acts := Actions(outputPath, nodes);
    forall k | 0 <= k < |acts| ensures !WritesTo(acts[k], f) {
      ActionWrites(outputPath, nodes, k, f);
    }
    RunUntouched(before, acts, f);
  }

  /** An inner loop that raised nothing wrote one resolved path per track, and every track resolved. */
  lemma WriteTracksComplete(ts: seq<Element>)
    requires WriteTracks(ts).error.None?
    ensures var rs := Outcomes(ts);
      && (forall t :: t in ts ==> ResolveTrack(t).Success?)
      && FirstFailure(rs) == |rs|
      && WriteTracks(ts).text == Lines(Paths(rs))
  {
    var rs := Outcomes(ts);
    WriteLinesSpec(rs);
    assert rs[..|rs|] == rs;
    forall t | t in ts ensures ResolveTrack(t).Success? {
      var j :| 0 <= j < |ts| && ts[j] == t;
      assert rs[j] == ResolveTrack(t);
    }
  }

  /**
   * Last write wins: in a run without an exception, a file holds one resolved
   * path per track of the last playlist written to it, in document order,
   * and every one of that playlist's tracks resolved.
   */
  lemma ExportLastWriteWins(before: map<string, string>, outputPath: string, nodes: seq<Element>, i: nat, f: string)
    requires ExportRun(before, outputPath, nodes).error.None?
    requires i < |nodes| && Writes(outputPath, nodes[i], f)
    requires forall j :: i < j < |nodes| ==> !Writes(outputPath, nodes[j], f)
    ensures var rs := Outcomes(Tracks(nodes[i]));
      && f in ExportRun(before, outputPath, nodes).files
      && (forall t :: t in Tracks(nodes[i]) ==> ResolveTrack(t).Success?)
      && FirstFailure(rs) == |rs|
      && ExportRun(before, outputPath, nodes).files[f] == Lines(Paths(rs))
  {
    var acts := Actions(outputPath, nodes);
    ActionWrites(outputPath, nodes, i, f);
    forall j | i < j < |acts| ensures !WritesTo(acts[j], f) {
      ActionWrites(outputPath, nodes, j, f);
    }
    RunLastWriteWins(before, acts, i, f);
    WriteTracksComplete(Tracks(nodes[i]));
  }

  /** Decoding a key made of two pieces without a separator around one `/:` token. */
  lemma DecodeTwo(key: string, a: string, b: string)
    requires key == a + EncodedSep + b && Sep !in a && Sep !in b
    ensures Decode(key) == a + [Sep] + b
  {
    FirstAtLead(a, EncodedSep);
    AbsentChar(b, EncodedSep, Sep);
    assert IsSplitOf(key, EncodedSep, [a, b]);
    DecodeSplit(key, [a, b]);
  }

  /** A path too unlike the old volume to hold it is not rewritten. */
  lemma RewriteNothing(path: string)
    requires 'G' !in path
    ensures Rewrite(path) == path
  {
    AbsentChar(path, LegacyVolume, 'G');
    RewriteWithoutLegacy(path);
  }

  /** A key without a drive letter is decoded and placed under `/Volumes`. */
  lemma ResolveVolumeExample(key: string)
    requires key == "Music" + EncodedSep + "a.mp3"
    ensures Resolve(key) == Success("/Volumes/Music/a.mp3")
  {
    assert Decode(key) == "Music/a.mp3" by {
      DecodeTwo(key, "Music", "a.mp3");
    }
    var path := "/Volumes/" + Decode(key);
    assert Resolve(key) == Success(Rewrite(path)) by {
      ResolveUnderVolumes(key);
    }
    assert path == "/Volumes/Music/a.mp3";
    assert Rewrite(path) == path by {
      RewriteNothing(path);
    }
  }

  /** A key with a drive letter is only decoded. */
  lemma ResolveDriveExample(key: string)
    requires key == "C:" + EncodedSep + "a.mp3"
    ensures Resolve(key) == Success("C:/a.mp3")
  {
    assert Decode(key) == "C:/a.mp3" by {
      DecodeTwo(key, "C:", "a.mp3");
    }
    RewriteNothing("C:/a.mp3");
  }

  /** A key on the old volume ends up on the new one. */
  lemma ResolveLegacyExample(key: string)
    requires key == "Gleitzpod" + EncodedSep + "a.mp3"
    ensures Resolve(key) == Success("/Volumes/RuseVault/Gleitz/a.mp3")
  {
    assert Decode(key) == "Gleitzpod/a.mp3" by {
      DecodeTwo(key, "Gleitzpod", "a.mp3");
    }
    var rest := "/a.mp3";
    var path := "/Volumes/" + Decode(key);
    assert Resolve(key) == Success(Rewrite(path)) by {
      ResolveUnderVolumes(key);
    }
    assert path == LegacyVolume + rest;
    RewriteLegacyPrefix(rest);
    assert CurrentVolume + rest == "/Volumes/RuseVault/Gleitz/a.mp3";
  }

  /**
   * Resolution is not idempotent: a decoded key that still holds the token
   * `/:` is decoded once more when its result is resolved again.
   */
  lemma ResolveNotIdempotent(key: string)
    requires key == "C:/::x"
    ensures Resolve(key) == Success("C:/:x")
    ensures Resolve(Resolve(key).value) == Success("C:/x")
  {
    assert Decode(key) == "C:/:x" by {
      DecodeTwo(key, "C:", ":x");
    }
    RewriteNothing("C:/:x");
    assert Decode("C:/:x") == "C:/x" by {
      DecodeTwo("C:/:x", "C:", "x");
    }
    RewriteNothing("C:/x");
  }

  /** Two playlists whose names differ only in a separator and a dash share one file. */
  lemma FileNameCollisionExample(name1: string, name2: string)
    requires name1 == "A/B" && name2 == "A-B"
    ensures FileName(name1) == FileName(name2)
  {
    FileNameDashEquivalent(name1, name2);
  }
}
