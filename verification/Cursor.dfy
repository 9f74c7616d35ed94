/** The persisted cursor: its in-memory form, the file it is loaded from and saved to, and the operator
    handlers that rewrite it. */
module Cursor {
  import opened Domain

  /** The cursor file as a load sees it. */
  datatype FileState = Missing | Unreadable | Stored(repos: Repos)

  /** The temporary file beside it. */
  datatype TmpState = NoTmp | Partial | Complete(repos: Repos)

  /** Where a save goes wrong. */
  datatype SaveFault = NoFault | MarshalFails | WriteFails | RenameFails

  /** The cursor a load yields: a missing file is a cold start, an unreadable one refuses. */
  function Loaded(f: FileState): Option<Repos> {
    match f
    case Missing => Some(map[])
    case Unreadable => None
    case Stored(repos) => Some(repos)
  }

  /** The file after a save: replaced as a whole or not at all. */
  function AfterSave(f: FileState, repos: Repos, fault: SaveFault): FileState {
    if fault.NoFault? then Stored(repos) else f
  }

  // ---- One save, write by write ----

  /** What a crash would leave on disk. */
  datatype Disk = Disk(file: FileState, tmp: TmpState)

  /** The disk after each write of a save: the temporary file is begun, completed, and renamed over the
      cursor file. A fault ends the list early. */
  function SaveWrites(before: Disk, c: Repos, fault: SaveFault): seq<Disk> {
    match fault
    case MarshalFails => []
    case WriteFails => [before.(tmp := Partial)]
    case RenameFails => [before.(tmp := Partial), before.(tmp := Complete(c))]
    case NoFault => [before.(tmp := Partial), before.(tmp := Complete(c)), Disk(Stored(c), NoTmp)]
  }

  /** The disk a save leaves. */
  function AfterWrites(before: Disk, c: Repos, fault: SaveFault): Disk {
    var writes := SaveWrites(before, c, fault);
    if writes == [] then before else writes[|writes| - 1]
  }

  /** The next load after a crash at any point of a save, whatever an earlier save left in the temporary file,
      reads the old cursor or the complete new one, and the new one only from a save that went all the way. */
  lemma CrashDuringSave(before: Disk, c: Repos, fault: SaveFault, i: nat)
    requires i < |SaveWrites(before, c, fault)|
    ensures var crashed := SaveWrites(before, c, fault)[i].file;
            Loaded(crashed) == Loaded(before.file) || (Loaded(crashed) == Some(c) && fault.NoFault? && i == 2)
    ensures AfterWrites(before, c, fault).file == AfterSave(before.file, c, fault)
  {
  }

  /** The save after a crash or a failed save is not disturbed by what that left behind. */
  lemma SaveAfterCrash(before: Disk, c: Repos, fault: SaveFault, i: nat, c': Repos, fault': SaveFault)
    requires i < |SaveWrites(before, c, fault)|
    ensures var crashed := SaveWrites(before, c, fault)[i];
            AfterWrites(crashed, c', fault').file == AfterSave(crashed.file, c', fault')
            && (fault'.NoFault? ==> AfterWrites(crashed, c', fault') == Disk(Stored(c'), NoTmp))
  {
  }

  class RepoState {
    var lastSeenMasterSHA: string
    var lastBuiltTag: string

    constructor (seen: string, built: string)
      ensures lastSeenMasterSHA == seen && lastBuiltTag == built
    {
      lastSeenMasterSHA, lastBuiltTag := seen, built;
    }
  }

  class CursorState {
    var repos: map<string, RepoState>

    constructor ()
      ensures Valid() && repos == map[] && View() == map[]
    {
      repos := map[];
    }

    /** Entries are not shared between keys. */
    ghost predicate Valid()
      reads this
    {
      forall a, b | a in repos && b in repos && a != b :: repos[a] != repos[b]
    }

    ghost function Footprint(): set<object>
      reads this
    {
      {this} + repos.Values
    }

    function View(): Repos
      reads this, repos.Values
    {
      map k | k in repos :: Entry(repos[k].lastSeenMasterSHA, repos[k].lastBuiltTag)
    }

    /** Make an entry the entry of a key. */
    method Put(key: string, state: RepoState)
      requires Valid() && state !in repos.Values
      modifies this
      ensures Valid() && repos == old(repos)[key := state]
      ensures repos.Values <= old(repos.Values) + {state}
      ensures View() == old(View())[key := Entry(state.lastSeenMasterSHA, state.lastBuiltTag)]
    {
      repos := repos[key := state];
    }

    /** Forget the entry of a key. */
    method Delete(key: string)
      requires Valid()
      modifies this
      ensures Valid() && Footprint() <= old(Footprint())
      ensures View() == old(View()) - {key}
    {
      repos := repos - {key};
    }

    /** Give a key an entry of its own. */
    method Add(key: string, entry: Entry)
      requires Valid()
      modifies this
      ensures Valid() && fresh(Footprint() - old(Footprint()))
      ensures View() == old(View())[key := entry]
    {
      var state := new RepoState(entry.lastSeen, entry.lastBuilt);
      Put(key, state);
    }

    /** repoState: the entry of a key, created on first use. */
    method StateFor(key: string) returns (state: RepoState)
      requires Valid()
      modifies this
      ensures Valid() && key in repos && repos[key] == state
      ensures repos.Values <= old(repos.Values) + {state}
      ensures state in old(repos.Values) || fresh(state)
      ensures View() == old(View())[key := EntryOf(old(View()), key)]
    {
      if key !in repos {
        var created := new RepoState("", "");
        Put(key, created);
      }
      state := repos[key];
    }

    /** Writing to one entry changes that entry of the view and no other. */
    twostate lemma EntryWritten(key: string)
      requires old(Valid()) && repos == old(repos) && key in repos
      requires forall k | k in repos && repos[k] != repos[key] :: unchanged(repos[k])
      ensures View() == old(View())[key := Entry(repos[key].lastSeenMasterSHA, repos[key].lastBuiltTag)]
      ensures old(View())[key] == old(Entry(repos[key].lastSeenMasterSHA, repos[key].lastBuiltTag))
    {
    }

    /** The head recorded for a repo after a successful publish. */
    method RecordHead(key: string, head: string)
      requires Valid()
      modifies Footprint()
      ensures Valid() && fresh(Footprint() - old(Footprint()))
      ensures View() == old(View())[key := EntryOf(old(View()), key).(lastSeen := head)]
    {
      hide CursorState.View;
      var state := StateFor(key);
      label Found:
      state.lastSeenMasterSHA := head;
      EntryWritten@Found(key);
    }

    /** The tag recorded for a repo after a backstop dispatch. */
    method RecordTag(key: string, tag: string)
      requires Valid()
      modifies Footprint()
      ensures Valid() && fresh(Footprint() - old(Footprint()))
      ensures View() == old(View())[key := EntryOf(old(View()), key).(lastBuilt := tag)]
    {
      hide CursorState.View;
      var state := StateFor(key);
      label Found:
      state.lastBuiltTag := tag;
      EntryWritten@Found(key);
    }
  }

  /** The entries not yet decoded left out. */
  function Without(stored: Repos, todo: set<string>): Repos {
    map k | k in stored && k !in todo :: stored[k]
  }

  lemma WithoutOneLess(stored: Repos, todo: set<string>, k: string)
    requires k in stored && k in todo
    ensures Without(stored, todo - {k}) == Without(stored, todo)[k := stored[k]]
  {
  }

  lemma WithoutEnds(stored: Repos)
    ensures Without(stored, stored.Keys) == map[] && Without(stored, {}) == stored
  {
  }

  /** The mutable cursor built from what is stored: one fresh entry for every key. */
  method Decode(stored: Repos) returns (c: CursorState)
    ensures c.Valid() && fresh(c.Footprint()) && c.View() == stored
  {
    hide Without, CursorState.View;
    c := new CursorState();
    WithoutEnds(stored);
    var todo := stored.Keys;
    while todo != {}
      invariant todo <= stored.Keys && c.Valid() && fresh(c.Footprint())
      invariant c.View() == Without(stored, todo)
      decreases |todo|
    {
      var k :| k in todo;
      c.Add(k, stored[k]);
      WithoutOneLess(stored, todo, k);
      todo := todo - {k};
    }
  }

  class CursorStore {
    var file: FileState
    var tmp: TmpState
    /** The disk after every write so far. */
    ghost var writes: seq<Disk>

    constructor (file: FileState)
      ensures this.file == file && tmp == NoTmp && writes == []
    {
      this.file, tmp, writes := file, NoTmp, [];
    }

    /** LoadCursor; None is the error return. */
    method Load() returns (c: CursorState?)
      ensures c == null <==> file.Unreadable?
      ensures c != null ==>
                && fresh(c.Footprint()) && c.Valid()
                && c.View() == (if file.Missing? then map[] else file.repos)
    {
      if file.Unreadable? {
        return null;
      }
      if file.Missing? {
        c := Decode(map[]);
        return;
      }
      c := Decode(file.repos);
    }

    /** SaveCursor: write the temporary file, then rename it over the cursor file. */
    method Save(c: CursorState, fault: SaveFault) returns (ok: bool)
      modifies this
      ensures ok == fault.NoFault? && file == AfterSave(old(file), c.View(), fault)
      ensures Disk(file, tmp) == AfterWrites(old(Disk(file, tmp)), c.View(), fault)
      ensures writes == old(writes) + SaveWrites(old(Disk(file, tmp)), c.View(), fault)
    {
      var data := c.View();
      if fault.MarshalFails? {
        return false;
      }
      tmp, writes := Partial, writes + [Disk(file, Partial)];
      if fault.WriteFails? {
        return false;
      }
      tmp, writes := Complete(data), writes + [Disk(file, Complete(data))];
      if fault.RenameFails? {
        return false;
      }
      file, tmp, writes := Stored(tmp.repos), NoTmp, writes + [Disk(Stored(tmp.repos), NoTmp)];
      return true;
    }
  }

  // ---- Operator handlers ----

  /** HTTP status of an operator request. */
  datatype Status = Done | BadRequest | NotFound | Error

  /** The status of a reset, decided on the loaded cursor. */
  function ResetStatus(f: FileState, key: string, fault: SaveFault): Status {
    if key == "" then BadRequest
    else if Loaded(f).None? then Error
    else if key !in Loaded(f).value then NotFound
    else if fault.NoFault? then Done else Error
  }

  function AfterReset(f: FileState, key: string, fault: SaveFault): FileState {
    if ResetStatus(f, key, fault).Done? then Stored(Loaded(f).value - {key}) else f
  }

  /** Which check gives a reset its status, and what it does to the file: the entry goes, every other entry
      stays. */
  lemma ResetExactly(f: FileState, key: string, fault: SaveFault)
    ensures var status := ResetStatus(f, key, fault);
            && (status.BadRequest? <==> key == "")
            && (status.NotFound? <==> key != "" && (f.Missing? || (f.Stored? && key !in f.repos)))
            && (status.Error? <==> key != "" && (f.Unreadable? || (f.Stored? && key in f.repos && fault != NoFault)))
            && (!status.Done? ==> AfterReset(f, key, fault) == f)
            && (status.Done? ==>
                  && f.Stored? && key in f.repos && AfterReset(f, key, fault).Stored?
                  && var after := AfterReset(f, key, fault).repos;
                  forall k :: (k in after <==> k in f.repos && k != key) && (k in after ==> after[k] == f.repos[k]))
  {
  }

  method ResetCursor(store: CursorStore, key: string, fault: SaveFault) returns (status: Status)
    modifies store
    ensures status == ResetStatus(old(store.file), key, fault)
    ensures store.file == AfterReset(old(store.file), key, fault)
  {
    if key == "" {
      return BadRequest;
    }
    var cursor := store.Load();
    if cursor == null {
      return Error;
    }
    if key !in cursor.repos {
      return NotFound;
    }
    cursor.Delete(key);
    var ok := store.Save(cursor, fault);
    return if ok then Done else Error;
  }

  /** The status of a set; the entry is created when absent. */
  function SetStatus(f: FileState, key: string, sha: string, fault: SaveFault): Status {
    if key == "" || sha == "" then BadRequest
    else if Loaded(f).None? then Error
    else if fault.NoFault? then Done else Error
  }

  /** The whole entry is replaced, so the backstop's tag is forgotten. */
  function AfterSet(f: FileState, key: string, sha: string, fault: SaveFault): FileState {
    if SetStatus(f, key, sha, fault).Done? then Stored(Loaded(f).value[key := Entry(sha, "")]) else f
  }

  /** Which check gives a set its status, and what it does to the file: the key reads the new head and no
      tag, every other entry stays. */
  lemma SetExactly(f: FileState, key: string, sha: string, fault: SaveFault)
    ensures var status := SetStatus(f, key, sha, fault);
            && !status.NotFound?
            && (status.BadRequest? <==> key == "" || sha == "")
            && (status.Error? <==> key != "" && sha != "" && (f.Unreadable? || fault != NoFault))
            && (!status.Done? ==> AfterSet(f, key, sha, fault) == f)
            && (status.Done? ==>
                  && AfterSet(f, key, sha, fault).Stored?
                  && var after := AfterSet(f, key, sha, fault).repos;
                  && key in after && after[key].lastSeen == sha && after[key].lastBuilt == ""
                  && forall k | k != key ::
                       && (k in after <==> f.Stored? && k in f.repos)
                       && (k in after ==> after[k] == f.repos[k]))
  {
  }

  method SetCursor(store: CursorStore, key: string, sha: string, fault: SaveFault) returns (status: Status)
    modifies store
    ensures status == SetStatus(old(store.file), key, sha, fault)
    ensures store.file == AfterSet(old(store.file), key, sha, fault)
  {
    if key == "" || sha == "" {
      return BadRequest;
    }
    var cursor := store.Load();
    if cursor == null {
      return Error;
    }
    cursor.Add(key, Entry(sha, ""));
    var ok := store.Save(cursor, fault);
    return if ok then Done else Error;
  }
}
