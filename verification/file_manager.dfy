/**
  The vault registry (src/Services/FileManager.cs): the known vaults and
  the app-wide settings, kept in one settings document that every mutating
  call rewrites in full.

  File reading, JSON (de)serialization and the file write are abstracted:
  the content found on disk is an input, and whether the write succeeds is
  a parameter. The original's `HashSet<VaultEntry>` holds reference-equal
  objects; it is modelled as a sequence in enumeration order.
*/
module FileManager {
  import opened Wrappers
  import EnumerableExtension

  datatype VaultEntry = VaultEntry(name: string, path: string)

  datatype AppSettings = AppSettings(startMinimized: bool)

  datatype GlobalSettings = GlobalSettings(entries: seq<VaultEntry>, appSettings: AppSettings)

  /** `new AppSettings()`: the window does not start minimized. */
  const DefaultAppSettings := AppSettings(false)

  /** Every failure surfaces as a `FileManagerException`; the variant says which message. */
  datatype FileManagerError =
    | NoSuchEntry(name: string)     // "Could not find an entry with name ..."
    | DuplicateName(name: string)   // "Vault with the name ... already exists!"
    | WriteFailed                   // "Failed to write settings file ..."
    | ReadFailed                    // "Failed to read settings file ..." (I/O or JSON error)
    | NullDocument                  // "Entries read from ... ended up being `null`"

  /** What an operation did to the settings file. */
  datatype Persistence =
    | NotWritten
    | Written(document: GlobalSettings)
    | WriteFailedFor(document: GlobalSettings)

  /**
    The registry after a call, what was written, and the exception the
    call raised, if any. The in-memory state is updated before the write,
    so a failed write still leaves the change in memory.
  */
  datatype Step = Step(settings: GlobalSettings, persistence: Persistence, error: Option<FileManagerError>)

  /** What `ReadSettings` finds at the settings path. */
  datatype SettingsFile =
    | Missing
    | Unreadable                                // an I/O, access, or JSON error while reading
    | Parsed(document: Option<GlobalSettings>)  // `None`: the JSON text is `null`

  /** Invariant 1 of the registry: no two entries share a name. */
  predicate NamesUnique(entries: seq<VaultEntry>)
  {
    forall i, j | 0 <= i < j < |entries| :: entries[i].name != entries[j].name
  }

  predicate HasName(entries: seq<VaultEntry>, name: string)
  {
    exists i | 0 <= i < |entries| :: entries[i].name == name
  }

  /** `WriteSettings`: serializes the whole document and writes it. */
  function WriteSettings(settings: GlobalSettings, writeOk: bool): Step
  {
    if writeOk then Step(settings, Written(settings), None)
    else Step(settings, WriteFailedFor(settings), Some(WriteFailed))
  }

  /** Index of the first entry called `name`: `FirstOrDefault(e => e.Name == name)`. */
  function FindName(entries: seq<VaultEntry>, name: string): (r: Option<nat>)
    ensures r.Some? ==> r.value < |entries| && entries[r.value].name == name
    ensures r.Some? ==> forall j | 0 <= j < r.value :: entries[j].name != name
    ensures r.None? <==> !HasName(entries, name)
  {
    if entries == [] then None
    else if entries[0].name == name then Some(0)
    else
      match FindName(entries[1..], name)
      case None =>
        assert forall i | 1 <= i < |entries| :: entries[i] == entries[1..][i - 1];
        None
      case Some(i) => Some(i + 1)
  }

  /** `GetEntry`: the first entry with the given name, or a not-found error. */
  function GetEntry(settings: GlobalSettings, key: string): (r: Result<VaultEntry, FileManagerError>)
    ensures r.Ok? ==> r.value in settings.entries && r.value.name == key
    ensures r.Ok? ==> exists i | 0 <= i < |settings.entries| ::
      settings.entries[i] == r.value && forall j | 0 <= j < i :: settings.entries[j].name != key
    ensures r.Err? <==> !HasName(settings.entries, key)
    ensures r.Err? ==> r.error == NoSuchEntry(key)
  {
    match FindName(settings.entries, key)
    case None => Err(NoSuchEntry(key))
    case Some(i) => Ok(settings.entries[i])
  }

  /** The entries as the non-null references the `Contains` extension walks over. */
  function References(entries: seq<VaultEntry>): (r: seq<Option<VaultEntry>>)
    ensures |r| == |entries|
    ensures forall i | 0 <= i < |r| :: r[i] == Some(entries[i])
  {
    seq(|entries|, i requires 0 <= i < |entries| => Some(entries[i]))
  }

  /** `_entries.Contains(x => x.Name == name)`, through the extension method. */
  function NameTaken(entries: seq<VaultEntry>, name: string): (r: bool)
    ensures r <==> HasName(entries, name)
  {
    var refs := References(entries);
    var sameName := (x: Option<VaultEntry>) => x.Some? && x.value.name == name;
    EnumerableExtension.NoNullsMeansExists(refs, sameName, None, EnumerableExtension.IsNullRef);
    assert (exists i | 0 <= i < |refs| :: sameName(refs[i])) <==> HasName(entries, name) by {
      assert forall i | 0 <= i < |refs| :: sameName(refs[i]) <==> entries[i].name == name;
    }
    EnumerableExtension.ContainsRef(refs, sameName)
  }

  /** `CreateVault`: a name already in use is refused; a fresh entry is added and the file rewritten. */
  function CreateVault(settings: GlobalSettings, entry: VaultEntry, writeOk: bool): (r: Step)
    ensures HasName(settings.entries, entry.name) ==>
      r == Step(settings, NotWritten, Some(DuplicateName(entry.name)))
    ensures !HasName(settings.entries, entry.name) ==>
      && r.settings == settings.(entries := settings.entries + [entry])
      && r.persistence != NotWritten && r.persistence.document == r.settings
      && (r.error.None? <==> writeOk)
  {
    if NameTaken(settings.entries, entry.name) then
      Step(settings, NotWritten, Some(DuplicateName(entry.name)))
    else
      WriteSettings(settings.(entries := settings.entries + [entry]), writeOk)
  }

  /** `RemoveVault`: an absent name is a silent no-op; otherwise the first entry with it goes and the file is rewritten. */
  function RemoveVault(settings: GlobalSettings, name: string, writeOk: bool): (r: Step)
    ensures !HasName(settings.entries, name) ==> r == Step(settings, NotWritten, None)
    ensures HasName(settings.entries, name) ==>
      exists i | 0 <= i < |settings.entries| ::
        && settings.entries[i].name == name
        && (forall j | 0 <= j < i :: settings.entries[j].name != name)
        && r.settings.entries == settings.entries[..i] + settings.entries[i + 1..]
    ensures HasName(settings.entries, name) ==>
      && |r.settings.entries| == |settings.entries| - 1
      && r.settings.appSettings == settings.appSettings
      && r.persistence != NotWritten && r.persistence.document == r.settings
      && (r.error.None? <==> writeOk)
  {
    match FindName(settings.entries, name)
    case None => Step(settings, NotWritten, None)
    case Some(i) =>
      var entries := settings.entries[..i] + settings.entries[i + 1..];
      WriteSettings(settings.(entries := entries), writeOk)
  }

  /** `UpdateAppSettings`: replaces the app settings, keeps the entries, then writes. */
  function UpdateAppSettings(settings: GlobalSettings, appSettings: AppSettings, writeOk: bool): (r: Step)
    ensures r.settings.entries == settings.entries
    ensures r.settings.appSettings == appSettings
    ensures r.persistence != NotWritten && r.persistence.document == r.settings
    ensures r.error.None? <==> writeOk
  {
    WriteSettings(settings.(appSettings := appSettings), writeOk)
  }

  /**
    `ReadSettings`, run by the constructor: a missing file yields an empty
    registry with default app settings, which is written out; an unreadable
    file or a `null` document is an error.
  */
  function ReadSettings(file: SettingsFile, writeOk: bool): (r: Result<(GlobalSettings, Persistence), FileManagerError>)
    ensures file.Missing? ==>
      if writeOk then r == Ok((GlobalSettings([], DefaultAppSettings), Written(GlobalSettings([], DefaultAppSettings))))
      else r == Err(WriteFailed)
    ensures file.Unreadable? ==> r == Err(ReadFailed)
    ensures file.Parsed? && file.document.None? ==> r == Err(NullDocument)
    ensures file.Parsed? && file.document.Some? ==> r == Ok((file.document.value, NotWritten))
  {
    match file
    case Missing =>
      var step := WriteSettings(GlobalSettings([], DefaultAppSettings), writeOk);
      if step.error.Some? then Err(step.error.value) else Ok((step.settings, step.persistence))
    case Unreadable => Err(ReadFailed)
    case Parsed(None) => Err(NullDocument)
    case Parsed(Some(document)) => Ok((document, NotWritten))
  }

  /**
    The settings file after a call. A successful write leaves the document
    that was written, read back as itself: the serializer is taken to
    round-trip a `GlobalSettings`. No write leaves the file as it was. What
    a failed write leaves is not determined (`None`).
  */
  function Stored(file: SettingsFile, persistence: Persistence): Option<SettingsFile>
  {
    match persistence
    case NotWritten => Some(file)
    case Written(document) => Some(Parsed(Some(document)))
    case WriteFailedFor(_) => None
  }

  /**
    Starting again reads the registry the first start produced, and writes
    nothing: a missing file was replaced by the default document, and an
    existing one was left alone.
  */
  lemma RestartReadsSameRegistry(file: SettingsFile, writeOk: bool, writeOk': bool)
    requires ReadSettings(file, writeOk).Ok?
    ensures var (settings, persistence) := ReadSettings(file, writeOk).value;
      && Stored(file, persistence).Some?
      && ReadSettings(Stored(file, persistence).value, writeOk') == Ok((settings, NotWritten))
  {
  }

  /** A call whose write succeeded is seen in full by the next start; a call that wrote nothing leaves the file alone. */
  lemma ChangesSurviveRestart(settings: GlobalSettings, file: SettingsFile, entry: VaultEntry, name: string,
                              appSettings: AppSettings, writeOk: bool)
    ensures var r := CreateVault(settings, entry, true);
      if r.persistence.Written? then ReadSettings(Stored(file, r.persistence).value, writeOk) == Ok((r.settings, NotWritten))
      else Stored(file, r.persistence) == Some(file)
    ensures var r := RemoveVault(settings, name, true);
      if r.persistence.Written? then ReadSettings(Stored(file, r.persistence).value, writeOk) == Ok((r.settings, NotWritten))
      else Stored(file, r.persistence) == Some(file)
    ensures var r := UpdateAppSettings(settings, appSettings, true);
      ReadSettings(Stored(file, r.persistence).value, writeOk) == Ok((r.settings, NotWritten))
  {
  }

  /** Removal deletes exactly the entry with that name and keeps the others in order. */
  lemma RemoveVaultKeepsOthers(settings: GlobalSettings, name: string, writeOk: bool)
    requires NamesUnique(settings.entries)
    ensures var after := RemoveVault(settings, name, writeOk).settings.entries;
      && !HasName(after, name)
      && NamesUnique(after)
      && (forall e | e in settings.entries && e.name != name :: e in after)
      && (forall e | e in after :: e in settings.entries)
  {
    var entries := settings.entries;
    match FindName(entries, name)
    case None =>
    case Some(i) =>
      var after := entries[..i] + entries[i + 1..];
      DropAt(entries, i);
      forall k, l | 0 <= k < l < |after| ensures after[k].name != after[l].name {
        assert after[k] == entries[Skip(i, k)] && after[l] == entries[Skip(i, l)];
      }
      forall k | 0 <= k < |after| ensures after[k].name != name {
        assert after[k] == entries[Skip(i, k)];
      }
      forall e | e in entries && e.name != name ensures e in after {
        var j :| 0 <= j < |entries| && entries[j] == e;
        if j < i { assert after[j] == entries[Skip(i, j)]; } else { assert after[j - 1] == entries[Skip(i, j - 1)]; }
      }
      forall e | e in after ensures e in entries {
        var k :| 0 <= k < |after| && after[k] == e;
        assert after[k] == entries[Skip(i, k)];
      }
  }

  /** The index of the old entry at position `k` once the entry at `i` is gone. */
  function Skip(i: nat, k: nat): nat
  {
    if k < i then k else k + 1
  }

  /** Dropping the entry at `i` shifts the later ones down by one. */
  lemma DropAt(entries: seq<VaultEntry>, i: nat)
    requires i < |entries|
    ensures var after := entries[..i] + entries[i + 1..];
      && |after| == |entries| - 1
      && forall k | 0 <= k < |after| :: Skip(i, k) < |entries| && after[k] == entries[Skip(i, k)]
  {
  }

  /** Creating keeps names unique, since a name already in use is refused. */
  lemma CreateVaultKeepsNamesUnique(settings: GlobalSettings, entry: VaultEntry, writeOk: bool)
    requires NamesUnique(settings.entries)
    ensures NamesUnique(CreateVault(settings, entry, writeOk).settings.entries)
  {
  }

  /** Removing twice is removing once: the second call neither changes nor writes anything. */
  lemma RemoveVaultIdempotent(settings: GlobalSettings, name: string, writeOk: bool, writeOk': bool)
    requires NamesUnique(settings.entries)
    ensures var once := RemoveVault(settings, name, writeOk).settings;
      RemoveVault(once, name, writeOk') == Step(once, NotWritten, None)
  {
    RemoveVaultKeepsOthers(settings, name, writeOk);
  }

  /** A created vault can be fetched back by its name. */
  lemma CreateThenGet(settings: GlobalSettings, entry: VaultEntry, writeOk: bool)
    requires !HasName(settings.entries, entry.name)
    ensures GetEntry(CreateVault(settings, entry, writeOk).settings, entry.name) == Ok(entry)
  {
    var entries := settings.entries + [entry];
    assert entries[|settings.entries|] == entry;
    assert forall j | 0 <= j < |settings.entries| :: entries[j] == settings.entries[j];
  }

  /**
    Unique names hold for every registry the program builds itself: the
    document a first start writes, and whatever creating and removing make
    of a registry that already had them.
  */
  lemma BuiltRegistriesHaveUniqueNames(settings: GlobalSettings, entry: VaultEntry, name: string, writeOk: bool)
    ensures ReadSettings(Missing, writeOk).Ok? ==> NamesUnique(ReadSettings(Missing, writeOk).value.0.entries)
    ensures NamesUnique(settings.entries) ==> NamesUnique(CreateVault(settings, entry, writeOk).settings.entries)
    ensures NamesUnique(settings.entries) ==> NamesUnique(RemoveVault(settings, name, writeOk).settings.entries)
  {
    if NamesUnique(settings.entries) {
      CreateVaultKeepsNamesUnique(settings, entry, writeOk);
      RemoveVaultKeepsOthers(settings, name, writeOk);
    }
  }

  /**
    A settings file is loaded without checking its names. With two entries
    called "a", the first removal leaves the other one, so a second removal
    still changes the registry and rewrites the file.
  */
  lemma LoadedDuplicateNamesDefeatIdempotence()
    ensures var document := GlobalSettings([VaultEntry("a", "p"), VaultEntry("a", "q")], DefaultAppSettings);
      && ReadSettings(Parsed(Some(document)), true) == Ok((document, NotWritten))
      && !NamesUnique(document.entries)
      && var once := RemoveVault(document, "a", true).settings;
        && once.entries == [VaultEntry("a", "q")]
        && RemoveVault(once, "a", true).persistence.Written?
  {
    var document := GlobalSettings([VaultEntry("a", "p"), VaultEntry("a", "q")], DefaultAppSettings);
    assert document.entries[0].name == "a";
    var once := RemoveVault(document, "a", true).settings;
    assert once.entries == [VaultEntry("a", "q")];
    assert once.entries[0].name == "a";
  }
}
