/** Acquiring the key over many daemon starts: a key file, a keyring that comes and goes, and the
    database one of them opens. */
module KeySources {
  import opened Strings
  import opened Keys

  /** `openToOthers`: a mode bit lets group or other in. */
  datatype KeyFile = Absent | NotAFile | File(openToOthers: bool, text: string)

  /** A database file exists before anything has been encrypted into it. */
  datatype Database = Missing | Blank | EncryptedWith(key: Key)

  datatype KeyError =
    | NoRandom
    | FilePermissions
    | MalformedFile
    | ReadFailed
    | WriteFailed
    | NoSecretServiceForExistingDatabase

  datatype Result<+T> = Ok(value: T) | Err(error: KeyError) | Died

  datatype Source = FromFile | FromKeyring

  /** What becomes of creating a keyring item: a failed call may have stored it all the same, and
      the daemon may die right after. */
  datatype ItemOutcome = Stored | StoredButFailed | StoredThenDied | NotStored

  /** Everything one start cannot know beforehand. A key for the keyring and a key for a file are
      drawn separately, and a start may come to draw both. */
  datatype Weather = Weather(
    metadataFails: bool,
    readFails: bool,
    keyringUp: bool,
    keyringDraw: Option<Key>,
    fileDraw: Option<Key>,
    item: ItemOutcome,
    probeFails: bool,
    createFails: bool,
    charactersWritten: nat,
    diesBeforeOpen: bool,
    diesOpening: bool)

  /** Nothing goes wrong on the way to a key that exists. */
  predicate IsCalm(w: Weather) {
    !w.metadataFails && !w.readFails && w.keyringUp
  }

  datatype Event =
    | Start(weather: Weather)
    | ChangeMode(openToOthers: bool)
    | DeleteDatabase
    | DeleteDatabaseAndKeyFile

  /** A key that was acquired, and the key of the history there was at that moment. */
  datatype Acquisition = Acquisition(key: Key, history: Option<Key>)

  function KeyOf(database: Database): Option<Key> {
    match database case EncryptedWith(key) => Some(key) case _ => None
  }

  function FileText(key: Key): string {
    HexOf(key) + "\n"
  }

  /** A key file that this start gets a key from. */
  predicate IsReadable(file: KeyFile, w: Weather) {
    !w.metadataFails && file.File? && !file.openToOthers && !w.readFails && FromHex(file.text).Some?
  }

  /** What comes of creating a key file. */
  function Mints(file: KeyFile, w: Weather): Result<Key> {
    if w.fileDraw.None? then Err(NoRandom)
    else if w.createFails || !file.Absent? || w.charactersWritten < |FileText(w.fileDraw.value)| then Err(WriteFailed)
    else Ok(w.fileDraw.value)
  }

  /** And what is on the disk afterwards: an existing file is never written over. */
  function FileAfterMinting(file: KeyFile, w: Weather): KeyFile {
    if w.fileDraw.None? || w.createFails || !file.Absent? then file
    else
      var text := FileText(w.fileDraw.value);
      File(false, if w.charactersWritten < |text| then text[..w.charactersWritten] else text)
  }

  // ---- A start, and a run of them, as functions ----

  /** Everything that is on the machine. */
  datatype State = State(keyFile: KeyFile, keyring: seq<string>, database: Database)

  function KeyInFile(file: KeyFile, w: Weather): Result<Option<Key>> {
    if w.metadataFails then Err(ReadFailed)
    else
      match file
      case Absent => Ok(None)
      case NotAFile => Err(MalformedFile)
      case File(openToOthers, text) =>
        if openToOthers then Err(FilePermissions)
        else if w.readFails then Err(ReadFailed)
        else if FromHex(text).None? then Err(MalformedFile)
        else Ok(FromHex(text))
  }

  /** Whether a start comes to store a new key in the keyring. */
  predicate Stores(keyring: seq<string>, w: Weather) {
    keyring == [] && w.keyringUp && w.keyringDraw.Some? && !w.item.NotStored?
  }

  function KeyInRing(keyring: seq<string>, w: Weather): Result<Option<Key>> {
    if !w.keyringUp then Ok(None)
    else if keyring != [] then Ok(FromHex(keyring[0]))
    else if w.keyringDraw.None? then Ok(None)
    else
      match w.item
      case Stored => Ok(w.keyringDraw)
      case StoredThenDied => Died
      case _ => Ok(None)
  }

  function Started(s: State, w: Weather): (State, Result<(Key, Source)>) {
    match KeyInFile(s.keyFile, w)
    case Err(error) => (s, Err(error))
    case Died => (s, Died)
    case Ok(Some(key)) => (s, Ok((key, FromFile)))
    case Ok(None) =>
      var rung := if Stores(s.keyring, w) then s.(keyring := [HexOf(w.keyringDraw.value)]) else s;
      match KeyInRing(s.keyring, w)
      case Err(error) => (rung, Err(error))
      case Died => (rung, Died)
      case Ok(Some(key)) => (rung, Ok((key, FromKeyring)))
      case Ok(None) =>
        if !s.database.Missing? || w.probeFails then (rung, Err(NoSecretServiceForExistingDatabase))
        else
          (rung.(keyFile := FileAfterMinting(s.keyFile, w)),
           match Mints(s.keyFile, w)
           case Ok(key) => Ok((key, FromFile))
           case Err(error) => Err(error)
           case Died => Died)
  }

  function AfterOpening(database: Database, key: Key, diesOpening: bool): Database {
    if database.EncryptedWith? then database else if diesOpening then Blank else EncryptedWith(key)
  }

  function AfterEvent(s: State, event: Event): State {
    match event
    case Start(w) =>
      var (after, acquired) := Started(s, w);
      if acquired.Ok? && !w.diesBeforeOpen
      then after.(database := AfterOpening(after.database, acquired.value.0, w.diesOpening))
      else after
    case ChangeMode(openToOthers) =>
      if s.keyFile.File? then s.(keyFile := s.keyFile.(openToOthers := openToOthers)) else s
    case DeleteDatabase => s.(database := Missing)
    case DeleteDatabaseAndKeyFile => s.(database := Missing, keyFile := Absent)
  }

  /** The key a start acquires, with the key of the history there is at that moment. */
  function AcquiredBy(s: State, event: Event): Option<Acquisition> {
    if event.Start? && Started(s, event.weather).1.Ok?
    then Some(Acquisition(Started(s, event.weather).1.value.0, KeyOf(s.database)))
    else None
  }

  function StateAfter(s: State, events: seq<Event>): State {
    if events == [] then s else AfterEvent(StateAfter(s, events[..|events| - 1]), events[|events| - 1])
  }

  function AcquiredIn(s: State, events: seq<Event>): seq<Option<Acquisition>> {
    if events == [] then []
    else
      var init := events[..|events| - 1];
      AcquiredIn(s, init) + [AcquiredBy(StateAfter(s, init), events[|events| - 1])]
  }

  /** A later start that gets through will come to this key: the file wins, then the keyring. */
  predicate Leads(s: State, key: Key) {
    match s.keyFile
    case File(_, text) => FromHex(text) == Some(key)
    case Absent => s.keyring != [] && FromHex(s.keyring[0]) == Some(key)
    case NotAFile => false
  }

  /** The history can be decrypted: its key is the one the rules lead to. */
  ghost predicate IsSafe(s: State) {
    s.database.EncryptedWith? ==> Leads(s, s.database.key)
  }

  /** One event keeps the history readable, and a key acquired while there is one is its key. */
  lemma {:induction false} EventKeepsSafe(s: State, event: Event)
    requires IsSafe(s)
    ensures IsSafe(AfterEvent(s, event))
    ensures AcquiredBy(s, event).Some? && s.database.EncryptedWith? ==> AcquiredBy(s, event).value.key == s.database.key
    ensures event.Start? && s.database.EncryptedWith? ==> AfterEvent(s, event).database == s.database
  {
    hide FromHex;
    hide HexOf;
    if event.Start? {
      StartedLeads(s, event.weather);
    }
  }

  /** The key a start comes to is the one that every later start is led to, and with a database there,
      one that they were led to before still is. */
  lemma {:induction false} StartedLeads(s: State, w: Weather)
    ensures Started(s, w).1.Ok? ==> Leads(Started(s, w).0, Started(s, w).1.value.0)
    ensures !s.database.Missing? ==> forall key | Leads(s, key) :: Leads(Started(s, w).0, key)
    ensures Started(s, w).0.database == s.database
  {
    hide FromHex;
    hide HexOf;
    if w.keyringDraw.Some? {
      KeyReadsBack(w.keyringDraw.value, "", "");
      assert "" + HexOf(w.keyringDraw.value) + "" == HexOf(w.keyringDraw.value);
    }
    if w.fileDraw.Some? {
      KeyReadsBack(w.fileDraw.value, "", "\n");
      assert "" + HexOf(w.fileDraw.value) + "\n" == FileText(w.fileDraw.value);
      assert FileText(w.fileDraw.value)[..|FileText(w.fileDraw.value)|] == FileText(w.fileDraw.value);
    }
  }

  /** Over any run, each key that was acquired while there was an encrypted history is the key the
      history was encrypted with, and at the end the rules still lead to it. */
  lemma {:induction false} AcquiredIsTheHistorysKey(s: State, events: seq<Event>)
    requires IsSafe(s)
    ensures IsSafe(StateAfter(s, events)) && |AcquiredIn(s, events)| == |events|
    ensures forall a <- AcquiredIn(s, events) | a.Some? && a.value.history.Some? :: a.value.key == a.value.history.value
  {
    if events != [] {
      hide IsSafe;
      hide AfterEvent;
      hide AcquiredBy;
      var init := events[..|events| - 1];
      AcquiredIsTheHistorysKey(s, init);
      EventKeepsSafe(StateAfter(s, init), events[|events| - 1]);
      AcquiredAlongTheHistory(StateAfter(s, init), events[|events| - 1]);
    }
  }

  lemma {:induction false} AcquiredAlongTheHistory(s: State, event: Event)
    ensures AcquiredBy(s, event).Some? ==> AcquiredBy(s, event).value.history == KeyOf(s.database)
  {
  }

  /** A history keeps its key until it is deleted. */
  lemma {:induction false} HistoryKeepsItsKey(s: State, events: seq<Event>)
    requires IsSafe(s) && s.database.EncryptedWith?
    requires forall e <- events :: !e.DeleteDatabase? && !e.DeleteDatabaseAndKeyFile?
    ensures StateAfter(s, events).database == s.database
  {
    if events != [] {
      hide IsSafe;
      var init, last := events[..|events| - 1], events[|events| - 1];
      assert last in events && forall e <- init :: e in events;
      HistoryKeepsItsKey(s, init);
      AcquiredIsTheHistorysKey(s, init);
      EventKeepsSafe(StateAfter(s, init), last);
    }
  }

  /** From wherever a run leaves things, a calm start gets at the history, unless others may read the
      key file. */
  lemma {:induction false} CalmStartGetsThrough(s: State, events: seq<Event>, w: Weather)
    requires IsSafe(s)
    ensures var after := StateAfter(s, events);
            after.database.EncryptedWith? && IsCalm(w) ==>
              (Started(after, w).1.Ok? <==> !(after.keyFile.File? && after.keyFile.openToOthers))
  {
    hide FromHex;
    AcquiredIsTheHistorysKey(s, events);
  }

  class Machine {
    var keyFile: KeyFile
    /** The secrets stored under clippo's attributes, the one a search finds first first. */
    var keyring: seq<string>
    var database: Database

    function Snapshot(): State
      reads this
    {
      State(keyFile, keyring, database)
    }

    predicate Holds(key: Key)
      reads this
    {
      Leads(Snapshot(), key)
    }

    ghost predicate Safe()
      reads this
    {
      IsSafe(Snapshot())
    }

    constructor (keyFile: KeyFile, keyring: seq<string>)
      ensures Safe() && database == Missing && this.keyFile == keyFile && this.keyring == keyring
    {
      this.keyFile, this.keyring, database := keyFile, keyring, Missing;
    }

    /** No file is not an error, a file that others may read or that holds no key is, and a key that
        was read is the one the machine holds. */
    method ReadKeyFile(w: Weather) returns (found: Result<Option<Key>>)
      ensures found == KeyInFile(keyFile, w)
      ensures found == Ok(None) <==> keyFile.Absent? && !w.metadataFails
      ensures found.Ok? && found.value.Some? <==> IsReadable(keyFile, w)
      ensures found.Ok? && found.value.Some? ==> Holds(found.value.value)
      ensures found == Err(FilePermissions) <==> !w.metadataFails && keyFile.File? && keyFile.openToOthers
      ensures found == Err(MalformedFile) ==> keyFile.NotAFile? || (keyFile.File? && FromHex(keyFile.text).None?)
      ensures found == Err(ReadFailed) ==> w.metadataFails || w.readFails
      ensures found.Ok? || found == Err(FilePermissions) || found == Err(MalformedFile) || found == Err(ReadFailed)
    {
      if w.metadataFails {
        return Err(ReadFailed);
      }
      match keyFile {
        case Absent => return Ok(None);
        case NotAFile => return Err(MalformedFile);
        case File(openToOthers, text) =>
          if openToOthers {
            return Err(FilePermissions);
          }
          if w.readFails {
            return Err(ReadFailed);
          }
          var key := ParseHex(text);
          return if key.Some? then Ok(key) else Err(MalformedFile);
      }
    }

    /** The keyring's key, or a new one stored in it; every failure short of death is `Ok(None)`. */
    method FromSecretService(w: Weather) returns (found: Result<Option<Key>>)
      modifies this`keyring
      ensures keyring == if old(keyring) == [] && w.keyringUp && w.keyringDraw.Some? && !w.item.NotStored?
                         then [HexOf(w.keyringDraw.value)] else old(keyring)
      ensures found.Died? <==> old(keyring) == [] && w.keyringUp && w.keyringDraw.Some? && w.item.StoredThenDied?
      ensures found.Ok? && found.value.Some? ==> keyring != [] && FromHex(keyring[0]) == found.value
      ensures w.keyringUp && old(keyring) != [] ==> found == Ok(FromHex(old(keyring)[0]))
      ensures !w.keyringUp ==> found == Ok(None)
      ensures w.keyringUp && old(keyring) == [] ==>
                found == if w.keyringDraw.Some? && w.item.StoredThenDied? then Died
                         else if w.keyringDraw.Some? && w.item.Stored? then Ok(w.keyringDraw) else Ok(None)
      ensures !found.Err?
    {
      if !w.keyringUp {
        return Ok(None);
      }
      if keyring != [] {
        var key := ParseHex(keyring[0]);
        return Ok(key);
      }
      if w.keyringDraw.None? {
        return Ok(None);
      }
      var hex := ToHex(w.keyringDraw.value);
      KeyReadsBack(w.keyringDraw.value, "", "");
      assert "" + hex + "" == hex;
      if !w.item.NotStored? {
        keyring := [hex];
      }
      match w.item {
        case Stored => return Ok(w.keyringDraw);
        case StoredThenDied => return Died;
        case StoredButFailed => return Ok(None);
        case NotStored => return Ok(None);
      }
    }

    /** Create the key file; what of it is written before an error or a crash stays. */
    method CreateKeyFile(w: Weather) returns (created: Result<Key>)
      modifies this`keyFile
      ensures created == Mints(old(keyFile), w) && keyFile == FileAfterMinting(old(keyFile), w)
      ensures created.Ok? ==> Holds(created.value)
    {
      if w.fileDraw.None? {
        return Err(NoRandom);
      }
      if w.createFails || !keyFile.Absent? {
        return Err(WriteFailed);
      }
      var hex := ToHex(w.fileDraw.value);
      var text := hex + "\n";
      if w.charactersWritten < |text| {
        keyFile := File(false, text[..w.charactersWritten]);
        return Err(WriteFailed);
      }
      keyFile := File(false, text);
      KeyReadsBack(w.fileDraw.value, "", "\n");
      assert "" + hex + "\n" == text;
      return Ok(w.fileDraw.value);
    }

    /** A new key file only while no database exists: a later start would take the file's key for it. */
    method FallBackToFile(w: Weather) returns (minted: Result<Key>)
      modifies this`keyFile
      ensures !database.Missing? || w.probeFails ==>
                minted == Err(NoSecretServiceForExistingDatabase) && keyFile == old(keyFile)
      ensures database.Missing? && !w.probeFails ==>
                minted == Mints(old(keyFile), w) && keyFile == FileAfterMinting(old(keyFile), w)
      ensures minted.Ok? ==> Holds(minted.value)
    {
      var exists_ := w.probeFails || !database.Missing?;
      if exists_ {
        return Err(NoSecretServiceForExistingDatabase);
      }
      minted := CreateKeyFile(w);
    }

    /** In this order: the key file, the keyring, a new key file, or no start at all. */
    method AcquireIn(w: Weather) returns (acquired: Result<(Key, Source)>)
      requires Safe()
      modifies this`keyFile, this`keyring
      ensures (Snapshot(), acquired) == Started(old(Snapshot()), w)
      ensures Safe()
      ensures acquired.Ok? ==> Holds(acquired.value.0)
      ensures acquired.Ok? && database.EncryptedWith? ==> acquired.value.0 == database.key
      ensures acquired.Ok? ==> (acquired.value.1.FromKeyring? <==> keyFile.Absent?)
      ensures !old(keyFile).Absent? || w.metadataFails ==>
                && keyFile == old(keyFile) && keyring == old(keyring) && !acquired.Died?
                && (acquired.Ok? <==> IsReadable(keyFile, w))
                && (acquired.Ok? ==> acquired.value.1.FromFile?)
                && (acquired == Err(FilePermissions) <==>
                      !w.metadataFails && keyFile.File? && keyFile.openToOthers)
      ensures IsCalm(w) && old(keyFile).Absent? && old(keyring) != [] && FromHex(old(keyring)[0]).Some? ==>
                acquired == Ok((FromHex(old(keyring)[0]).value, FromKeyring)) && keyring == old(keyring)
      ensures IsCalm(w) && old(keyFile).Absent? && old(keyring) == [] && w.keyringDraw.Some? && w.item.Stored? ==>
                acquired == Ok((w.keyringDraw.value, FromKeyring)) && keyring == [HexOf(w.keyringDraw.value)]
      ensures database.Missing? && !w.metadataFails && !w.probeFails && !w.keyringUp && old(keyFile).Absent? ==>
                && keyFile == FileAfterMinting(old(keyFile), w) && keyring == old(keyring)
                && acquired == match Mints(old(keyFile), w)
                               case Ok(key) => Ok((key, FromFile))
                               case Err(error) => Err(error)
                               case Died => Died
      ensures !database.Missing? && !w.keyringUp && old(keyFile).Absent? ==>
                !acquired.Ok? && keyFile == old(keyFile) && keyring == old(keyring)
      ensures database.EncryptedWith? && IsCalm(w) && !(keyFile.File? && keyFile.openToOthers) ==> acquired.Ok?
    {
      var file := ReadKeyFile(w);
      if !file.Ok? {
        return Err(file.error);
      }
      if file.value.Some? {
        return Ok((file.value.value, FromFile));
      }
      var ring := FromSecretService(w);
      if ring.Died? {
        return Died;
      }
      if ring.value.Some? {
        return Ok((ring.value.value, FromKeyring));
      }
      var minted := FallBackToFile(w);
      match minted {
        case Ok(key) => return Ok((key, FromFile));
        case Err(error) => return Err(error);
        case Died => return Died;
      }
    }

    /** Open or create the database; the first page written to it is encrypted with the key. */
    method OpenDatabase(key: Key, diesOpening: bool) returns (reached: bool)
      requires Safe() && Holds(key)
      modifies this`database
      ensures Safe()
      ensures database == AfterOpening(old(database), key, diesOpening)
      ensures reached <==> !diesOpening
    {
      match database {
        case EncryptedWith(k) => reached := !diesOpening && k == key;
        case _ =>
          database := if diesOpening then Blank else EncryptedWith(key);
          reached := !diesOpening;
      }
    }

    /** Any run of starts, one after another, with the keyring going up and down, crashes between
        any two steps, modes changed and histories deleted in between; the result has, for each event,
        the key it acquired. Whenever a key is acquired while there is an encrypted history, it is the key
        the history is encrypted with, and wherever the run leaves things, the rules lead to it. */
    method Run(events: seq<Event>) returns (acquired: seq<Option<Acquisition>>)
      requires Safe()
      modifies this
      ensures Snapshot() == StateAfter(old(Snapshot()), events)
      ensures acquired == AcquiredIn(old(Snapshot()), events) && |acquired| == |events|
      ensures forall a <- acquired | a.Some? && a.value.history.Some? :: a.value.key == a.value.history.value
      ensures Safe()
    {
      hide Leads;
      hide Started;
      hide FromHex;
      ghost var first := Snapshot();
      acquired := [];
      for i := 0 to |events|
        invariant Safe() && |acquired| == i
        invariant Snapshot() == StateAfter(first, events[..i]) && acquired == AcquiredIn(first, events[..i])
      {
        assert events[..i + 1][..i] == events[..i];
        EventKeepsSafe(Snapshot(), events[i]);
        match events[i] {
          case Start(w) =>
            var start := AcquireIn(w);
            acquired := acquired + [if start.Ok? then Some(Acquisition(start.value.0, KeyOf(database))) else None];
            if start.Ok? && !w.diesBeforeOpen {
              var reached := OpenDatabase(start.value.0, w.diesOpening);
              assert reached || w.diesOpening;
            }
          case ChangeMode(openToOthers) =>
            acquired := acquired + [None];
            if keyFile.File? {
              keyFile := keyFile.(openToOthers := openToOthers);
            }
          case DeleteDatabase =>
            acquired := acquired + [None];
            database := Missing;
          case DeleteDatabaseAndKeyFile =>
            acquired := acquired + [None];
            database, keyFile := Missing, Absent;
        }
      }
      assert events[..|events|] == events;
      AcquiredIsTheHistorysKey(first, events);
    }
  }
}
