/**
 The setpoint file store: GhRetrieveSetpoints, GhSaveSetpoints and GhSetTargets.
 The file system is an abstract store mapping a path to the one setpoint
 record its file holds; whether `fopen` succeeds is an input of each call.
 A file that cannot be opened for reading is one that is absent from the store
 or one whose `readOk` input is false.
 */
module GhSetpoints {
  import opened GhDefs
  import opened GhControl

  /** The file GhSetTargets reads and writes. */
  const SETPOINTS_FILE: string := "setpoints.dat"

  /** What a retrieve from `files` returns: the stored record, or {0.0, 0.0} when the file cannot be opened. */
  function Load(files: map<string, Setpoint>, fname: string, readOk: bool): Setpoint
  {
    if readOk && fname in files then files[fname] else UNSET
  }

  /** The store after a save that opened its file: the whole record at `fname` is replaced. */
  function Store(files: map<string, Setpoint>, fname: string, spts: Setpoint): map<string, Setpoint>
  {
    files[fname := spts]
  }

  /** Round trip: a successful save followed by a successful retrieve returns the saved record. */
  lemma SaveThenLoad(files: map<string, Setpoint>, fname: string, spts: Setpoint)
    ensures Load(Store(files, fname, spts), fname, true) == spts
  {
  }

  /** A save leaves every other file as it was. */
  lemma SaveIsolated(files: map<string, Setpoint>, fname: string, other: string, spts: Setpoint, readOk: bool)
    requires other != fname
    ensures Load(Store(files, fname, spts), other, readOk) == Load(files, other, readOk)
  {
  }

  /** The store after GhSetTargets: defaults are written only when the retrieved record is unset and the save opens its file. */
  function StoreAfterTargets(files: map<string, Setpoint>, readOk: bool, writeOk: bool): map<string, Setpoint>
  {
    if IsUnset(Load(files, SETPOINTS_FILE, readOk)) && writeOk
    then Store(files, SETPOINTS_FILE, DEFAULTS)
    else files
  }

  /**
   Once GhSetTargets has run with a save that could open its file, a later
   retrieve returns the very targets it chose, and these never hit the 0.0
   sentinel again.
   */
  lemma TargetsPersist(files: map<string, Setpoint>, readOk: bool)
    ensures var cpoints := ResolveTargets(Load(files, SETPOINTS_FILE, readOk));
      Load(StoreAfterTargets(files, readOk, true), SETPOINTS_FILE, true) == cpoints
    ensures !IsUnset(Load(StoreAfterTargets(files, readOk, true), SETPOINTS_FILE, true))
  {
    var got := Load(files, SETPOINTS_FILE, readOk);
    if IsUnset(got) {
      SaveThenLoad(files, SETPOINTS_FILE, DEFAULTS);
    } else {
      assert readOk && SETPOINTS_FILE in files;
    }
  }

  /** On an empty store GhSetTargets yields {25.0, 55.0}, and a fresh retrieve returns the same. */
  lemma FirstRunDefaults(readOk: bool)
    ensures ResolveTargets(Load(map[], SETPOINTS_FILE, readOk)) == Setpoint(25.0, 55.0)
    ensures Load(StoreAfterTargets(map[], readOk, true), SETPOINTS_FILE, true) == Setpoint(25.0, 55.0)
  {
    TargetsPersist(map[], readOk);
  }

  /** The setpoint files on disk. */
  class SetpointFiles {
    var files: map<string, Setpoint>

    constructor (initial: map<string, Setpoint>)
      ensures files == initial
    {
      files := initial;
    }

    /** GhRetrieveSetpoints: the stored record, or {0.0, 0.0} when the file cannot be opened for reading. */
    method Retrieve(fname: string, readOk: bool) returns (spts: Setpoint)
      ensures !readOk || fname !in files ==> spts == UNSET
      ensures readOk && fname in files ==> spts == files[fname]
      ensures spts == Load(files, fname, readOk)
    {
      spts := UNSET;
      if !readOk || fname !in files {
        return;
      }
      spts := files[fname];
    }

    /** GhSaveSetpoints: 0 when the file cannot be opened; otherwise the whole record is overwritten and 1 returned. */
    method Save(fname: string, spts: Setpoint, writeOk: bool) returns (status: int)
      modifies this
      ensures status == (if writeOk then 1 else 0)
      ensures files == if writeOk then Store(old(files), fname, spts) else old(files)
    {
      if !writeOk {
        return 0;
      }
      files := files[fname := spts];
      return 1;
    }

    /**
     GhSetTargets: retrieve from "setpoints.dat"; if the temperature is the 0.0
     sentinel, return the defaults and save them, otherwise return the record
     unchanged and save nothing.
     */
    method SetTargets(readOk: bool, writeOk: bool) returns (cpoints: Setpoint)
      modifies this
      ensures cpoints == ResolveTargets(Load(old(files), SETPOINTS_FILE, readOk))
      ensures files == StoreAfterTargets(old(files), readOk, writeOk)
    {
      cpoints := Retrieve(SETPOINTS_FILE, readOk);
      if cpoints.temperature == 0.0 {
        cpoints := Setpoint(STEMP, SHUMID);
        var _ := Save(SETPOINTS_FILE, cpoints, writeOk);
      }
    }
  }
}
