# SekaiLayer core, modelled in Dafny

SekaiLayer is a WPF vault manager. This project models the parts of it that
hold logic rather than presentation, as immutable datatypes and pure
functions, and proves what those parts promise.

- **JNS** (`subprojects/JNS`): the type directory `JnsServer`, built from a
  list of registrations, and the polymorphic converter `JnsConverter<T>`,
  which reads and writes the tagged wire shape
  `{ "<group>": "<type>", "type_value": { ... } }` over a JSON token
  stream. Modules `JnsServer`, `JnsConverter`, and `Json`. `Json` is the
  ordinary token codec for the payload object.
- **Vault registry** (`FileManager`): vault entries keyed by name, plus app
  settings. Every mutating call rewrites the settings document. Module
  `FileManager`.
- **`ObservableSet<T>`**: a set that raises collection and `Count` change
  notifications. The state is a `set` plus the log of raised
  notifications. Module `ObservableSets`.
- **Tile exclusions** (`TileSetConfigurationControl`): the `(x;y)` and
  `(x1;y1)-(x2;y2)` text forms, adding exclusions, toggling a dragged
  rectangle, and the "perfect fit" mark. Module `TileSetConfiguration`.
  Module `Text` models the `string.Split`, `int.TryParse` and integer
  formatting this code relies on.
- **Helpers**: `ReverseObservableCollection.InsertItem` (module
  `ReverseCollection`), the `Contains(list, predicate)` extension (module
  `EnumerableExtension`), and `VaultObjectIdentifier` (module
  `VaultObjects`). The plain data records are modelled as datatypes only
  (`VaultData`, and the records in `FileManager`). The tile-set record is
  what the tile editor opens from and applies to.

Effects become values:
- A failed file write is a `writeOk` parameter.
- The settings file's content is a `SettingsFile` input.
- An exception is an `Err` or `error` value.
- A raised event is an entry in a log.
- A call that never returns normally, whether it loops forever or runs out of memory, is the outcome `Hangs`.

## Model

| member | source | states |
|---|---|---|
| JnsServer.Build | subprojects/JNS/JnsServer.cs:15-38 | Construction succeeds exactly when no tag pair and no concrete type is registered twice. On success the maps, the group set and the converter list are exactly what the registrations describe: one converter per distinct base type, in order of first appearance. The server's invariants also hold. On failure the error names the first registration that repeats an earlier tag pair or an earlier type. |
| JnsServer.LookupsFollowRegistrations | subprojects/JNS/JnsServer.cs:40-56 | For a built directory, `ContainsGroup` holds exactly when some registration uses the group, and `ContainsType` exactly when the type was registered. Every registration's tag pair translates to its type and back. `TranslateType` is null exactly for unregistered types. |
| JnsServer.DescribedIsValid | subprojects/JNS/JnsServer.cs:24-36 | A directory that matches its list of registrations has mutually inverse forward and backward maps. It knows the group of every tag pair, and it has a converter for every registered base type. |
| JnsServer.TranslationsInverse | subprojects/JNS/JnsServer.cs:44-56 | In a valid directory, translating a registered type to its tag pair and back gives the same type. |
| JnsConverter.Read | subprojects/JNS/JnsConverter.cs:9-65 | A successful read consumes a strictly shorter prefix. The second and third tokens are a property name and a string, and they resolve to the value's runtime type. That type is assignable to the converter's type. Without an opening brace the read fails with `NoObjectStart`. An unknown group fails with `UnknownGroup`. |
| JnsConverter.ReadBody | subprojects/JNS/JnsConverter.cs:57-64 | After the payload, success needs the resolved type to be castable to the converter's type. The value then has exactly the resolved type. |
| JnsConverter.Write | subprojects/JNS/JnsConverter.cs:67-97 | Writing succeeds exactly when the runtime type (or, for null, the converter's own type) is registered. A value is wrapped in an object that opens with its runtime type's tag pair. A null gives exactly the converter type's tag pair, the `type_value` name, a JSON null and the closing brace. An unregistered runtime type fails with `UnregisteredType`, and a null whose converter type is unregistered fails with `NullBaseRecord`. |
| JnsConverter.RoundTrip | subprojects/JNS/JnsConverter.cs:9-97 | For a valid directory and a registered, assignable value, reading what was written gives the same runtime type and fields, and leaves the following tokens untouched. |
| JnsConverter.Canonical | subprojects/JNS/JnsConverter.cs:9-65 | Every input that reads successfully is exactly the writer's output for the value it yields, followed by the rest. So the wrapper's members (the tag pair, `type_value`, the closing brace) are never accepted reordered, missing or with an extra member. Payload members are the value's fields in the order they come. |
| JnsConverter.NullIsNotReadBack | subprojects/JNS/JnsConverter.cs:71-82 | A null written with the converter type's tags is rejected when read, because its payload is not an object (`NoPayloadObject`). |
| JnsConverter.ExtraMemberRejected | subprojects/JNS/JnsConverter.cs:59-62 | A well-formed tagged object with one more member after the payload fails with `NoObjectEnd`. |
| Json.ValueRoundTrip | subprojects/JNS/JnsConverter.cs:57 | Decoding the tokens of any JSON value gives the value back and leaves the following tokens untouched. |
| Json.MembersRoundTrip | subprojects/JNS/JnsConverter.cs:94 | Decoding the tokens of an object's members, up to the closing brace, gives the members back. |
| Json.MembersCanonical | subprojects/JNS/JnsConverter.cs:57 | Whatever the member decoder accepts is exactly the encoding of what it returns, followed by the rest. |
| FileManager.UpdateAppSettings | src/Services/FileManager.cs:31-36 | The entries are unchanged, the app settings are replaced, and the new document is written. The call fails exactly when the write fails, and the in-memory change stays even then. |
| FileManager.FindName | src/Services/FileManager.cs:41 | The result is the index of the first entry with that name. It is absent exactly when no entry has the name. |
| FileManager.GetEntry | src/Services/FileManager.cs:39-47 | The result is the first entry with the requested name, which matters when a loaded document repeats a name. The call fails with `NoSuchEntry` exactly when no entry has that name. |
| FileManager.NameTaken | src/Services/FileManager.cs:52 | The `Contains` extension over the entries holds exactly when some entry has the name. |
| FileManager.CreateVault | src/Services/FileManager.cs:50-60 | A name already in use is refused with `DuplicateName`: nothing changes and nothing is written. Otherwise exactly the new entry is appended and the document is written. |
| FileManager.RemoveVault | src/Services/FileManager.cs:63-73 | An absent name changes nothing, writes nothing and raises nothing. Otherwise the first entry with that name goes, the entries before and after it stay in order, the app settings stay, and the document is written. |
| FileManager.RemoveVaultKeepsOthers | src/Services/FileManager.cs:63-73 | For a registry whose names are unique: after removal no entry has the name, names stay unique, every other entry is kept, and nothing is added. |
| FileManager.CreateVaultKeepsNamesUnique | src/Services/FileManager.cs:50-60 | Creating a vault keeps names unique. |
| FileManager.RemoveVaultIdempotent | src/Services/FileManager.cs:63-68 | For a registry whose names are unique, a second removal of the same name changes nothing and writes nothing. |
| FileManager.CreateThenGet | src/Services/FileManager.cs:39-60 | A vault created under a name no entry has is returned by `GetEntry` for that name, whatever the registry held before. |
| FileManager.BuiltRegistriesHaveUniqueNames | src/Services/FileManager.cs:50-73 | Every registry the program builds itself has unique names. The document a first start writes has them, and creating or removing a vault keeps them. |
| FileManager.LoadedDuplicateNamesDefeatIdempotence | src/Services/FileManager.cs:63-73 | A loaded document with two entries named "a" is accepted as it is. The first removal of "a" leaves the second entry, so a second removal still changes the registry and rewrites the file. |
| FileManager.ReadSettings | src/Services/FileManager.cs:95-130 | A missing file gives empty entries and default app settings, which are written out, or a write error. An unreadable file gives `ReadFailed`. A null document gives `NullDocument`. A parsed document is returned unchanged and not rewritten. |
| FileManager.RestartReadsSameRegistry | src/Services/FileManager.cs:95-130 | After a successful start, a second start reads back the same registry and writes nothing. A missing file has been replaced by the default document, and an existing file has been left alone. |
| FileManager.ChangesSurviveRestart | src/Services/FileManager.cs:31-73 | When `CreateVault`, `RemoveVault` or `UpdateAppSettings` writes successfully, the next start reads exactly the registry the call left in memory, unrewritten. A call that writes nothing leaves the file as it was. |
| ObservableSets.CollectionAdd | src/Types/Collections/ObservableSet.cs:18-24 | The interface `Add` leaves the same contents as the public `Add`, and for an absent item it is the public `Add`. It raises what the public `Add` raises for a new item even when the item was present, so it is never silent. |
| ObservableSets.InterfaceAddAlwaysNotifies | src/Types/Collections/ObservableSet.cs:18-24 | For an item already present, the interface `Add` leaves the set as it was but still notifies, while the public `Add` is silent. |
| ObservableSets.ExceptWith | src/Types/Collections/ObservableSet.cs:26-38 | The set becomes old minus other. Nothing is raised when the set is unchanged; otherwise Reset and a `Count` change are raised. |
| ObservableSets.IntersectWith | src/Types/Collections/ObservableSet.cs:40-52 | The set becomes old intersected with other. The notification rule is the same as for `ExceptWith`. |
| ObservableSets.QueriesPredictMutators | src/Types/Collections/ObservableSet.cs:54-64 | Each query predicts a mutator with the same argument. Subset holds exactly when `ExceptWith` would empty the set, and exactly when `IntersectWith` would stay silent. Superset holds exactly when `UnionWith` would find nothing new. Proper subset means subset plus something new, and proper superset means superset plus something `ExceptWith` keeps. Overlap holds exactly when `ExceptWith` would notify, and exactly when some element of other is contained. Set equality holds exactly when `SymmetricExceptWith` would empty the set. |
| ObservableSets.SymmetricExceptWith | src/Types/Collections/ObservableSet.cs:66-101 | The set becomes (old minus other) plus (other minus old). When it changes, Reset, an Add listing exactly the newly inserted elements, and a `Count` change are raised. Otherwise nothing is raised. |
| ObservableSets.SymmetricExceptRemovalOnly | src/Types/Collections/ObservableSet.cs:66-101 | When other is a non-empty subset of the set, the raised Add notification lists no items. |
| ObservableSets.UnionWith | src/Types/Collections/ObservableSet.cs:103-128 | The set becomes old plus other. The Add notification lists exactly the new elements, each once, in the order of other. Nothing is raised when none were new. |
| ObservableSets.Add | src/Types/Collections/ObservableSet.cs:130-142 | The public `Add` returns true exactly when the item was absent, and then raises Add for that item and a `Count` change. Otherwise the state, log included, is unchanged. |
| ObservableSets.Clear | src/Types/Collections/ObservableSet.cs:144-155 | The set becomes empty. Clearing an empty set raises nothing; otherwise Reset and a `Count` change are raised. |
| ObservableSets.Remove | src/Types/Collections/ObservableSet.cs:161-173 | Remove returns true exactly when the item was present, and then raises Reset and a `Count` change. Otherwise nothing changes. |
| ObservableSets.NotifiesExactlyOnChange | src/Types/Collections/ObservableSet.cs:26-173 | For every mutator except `UnionWith` (which has its own contract) and the interface `Add` (which notifies regardless), the log stays untouched exactly when the contents stay the same. |
| EnumerableExtension.FirstOrDefault | src/Extensions/EnumerableExtension.cs:7 | The result is the first element the predicate accepts. It is the default value when no element is accepted. |
| EnumerableExtension.ContainsMeansFirstMatchNonNull | src/Extensions/EnumerableExtension.cs:5-8 | For any element type whose default is null, the extension is true exactly when the first match exists and is not null. |
| EnumerableExtension.ContainsRefMeansFirstMatchNonNull | src/Extensions/EnumerableExtension.cs:5-8 | For reference types and `Nullable<V>`, the extension is true exactly when the first element matching the predicate exists and is not null. |
| EnumerableExtension.NoNullsMeansExists | src/Extensions/EnumerableExtension.cs:7 | When the default is null and the list holds no nulls, the extension is true exactly when some element matches. |
| EnumerableExtension.NullFirstMatchHidesLaterMatch | src/Extensions/EnumerableExtension.cs:7 | A null that matches first makes the answer false, even though a later non-null element matches. |
| EnumerableExtension.ContainsValue | src/Extensions/EnumerableExtension.cs:7 | For a non-nullable value type the answer is always true. This holds even when nothing matches, because `FirstOrDefault` then returns `default(T)` and no value of such a type is null. |
| EnumerableExtension.NoMatchSeparatesValueFromNullable | src/Extensions/EnumerableExtension.cs:5-8 | On a list where nothing matches, the extension is true for a non-nullable value type and false for a type whose default is null. |
| VaultObjects.IsContentOpenable | src/Types/VaultObjectIdentifier.cs:21-26 | An identifier's content is openable exactly when it is not an asset group, that is, for images and worlds. |
| VaultObjects.OpenableDependsOnlyOnType | src/Types/VaultObjectIdentifier.cs:21-26 | Two identifiers of the same kind agree on openability, whatever their names and ids. |
| ReverseCollection.Insert | src/Types/Collections/ReverseObservableCollection.cs:7-10 | An insertion succeeds exactly for indices 0 to Count. The item then sits at position Count minus index, and the length grows by one. Any other index fails. |
| ReverseCollection.InsertKeepsOthers | src/Types/Collections/ReverseObservableCollection.cs:9 | Removing the inserted item again gives the previous contents in their order. |
| ReverseCollection.InsertAtZeroAppends | src/Types/Collections/ReverseObservableCollection.cs:9 | Index 0 appends the item at the end. |
| ReverseCollection.Add | src/Types/Collections/ReverseObservableCollection.cs:9 | Adding, which inserts at index Count, puts the item at the front. |
| ReverseCollection.AddAllReverses | src/Types/Collections/ReverseObservableCollection.cs:7-10 | Adding a sequence of items leaves them in reverse order, ahead of the earlier contents. |
| TileSetConfiguration.GetExcludedPoint | src/UI/Controls/TileSetConfigurationControl.xaml.cs:225-249 | The result is a point exactly when the text is parenthesised, its inside splits on `;` into two pieces that parse as the coordinates, and the point is admissible: non-negative and below every count that is set. That point is the result. |
| TileSetConfiguration.PointRoundTrip | src/UI/Controls/TileSetConfigurationControl.xaml.cs:225-249 | Every admissible point with 32-bit coordinates is accepted in its `(x;y)` form and gives itself back. |
| TileSetConfiguration.ParsedPointReformats | src/UI/Controls/TileSetConfigurationControl.xaml.cs:225-249 | An accepted text, however its numbers are spelled, gives a point whose own `(x;y)` form is accepted as the same point. |
| TileSetConfiguration.GetExclusionRange | src/UI/Controls/TileSetConfigurationControl.xaml.cs:210-223 | A range is returned exactly when the text splits on `-` into two parts that are both accepted points. Its corners are those two points, in order. |
| TileSetConfiguration.RangeRoundTrip | src/UI/Controls/TileSetConfigurationControl.xaml.cs:210-223 | Every pair of admissible corners is accepted in its `(x1;y1)-(x2;y2)` form and gives itself back. |
| TileSetConfiguration.ParsedRangeReformats | src/UI/Controls/TileSetConfigurationControl.xaml.cs:210-223 | An accepted range text gives corners whose own `(x1;y1)-(x2;y2)` form is accepted as the same corners. |
| TileSetConfiguration.TryAddExclusion | src/UI/Controls/TileSetConfigurationControl.xaml.cs:172-208 | Text without `-` always finishes. It succeeds exactly when the point parses, and then adds just that point. A failure leaves the set unchanged. Text with `-` never changes the set when it finishes. |
| TileSetConfiguration.AddExclusionOfPoint | src/UI/Controls/TileSetConfigurationControl.xaml.cs:181-190 | The `(x;y)` form of an admissible point adds exactly that point. |
| TileSetConfiguration.AddExclusionIdempotent | src/UI/Controls/TileSetConfigurationControl.xaml.cs:181-190 | Adding an already excluded point succeeds and changes nothing, notifications included. |
| TileSetConfiguration.RangeNeverReturns | src/UI/Controls/TileSetConfigurationControl.xaml.cs:192-207 | As written, every well-formed range whose first corner is not right of the second never returns normally: it loops forever or exhausts memory. |
| TileSetConfiguration.TryAddExclusionIntended | src/UI/Controls/TileSetConfigurationControl.xaml.cs:192-207 | With the range loops corrected, a parsed range adds every tile between its corners. The single-point path is unchanged, and a failure changes nothing. |
| TileSetConfiguration.AddRectangle | src/UI/Controls/TileSetConfigurationControl.xaml.cs:199-205 | Adding a rectangle tile by tile leaves the old tiles plus exactly the rectangle's tiles. |
| TileSetConfiguration.ToggleRegion | src/UI/Controls/TileSetConfigurationControl.xaml.cs:362-386 | If every tile of the rectangle is already excluded, they are all removed. Otherwise they are all added. |
| TileSetConfiguration.CanvasMouseUp | src/UI/Controls/TileSetConfigurationControl.xaml.cs:341-391 | The rectangle's ends are clamped to at most the counts, and its tiles are then toggled as one region. |
| TileSetConfiguration.ClampAsWrittenLeavesGrid | src/UI/Controls/TileSetConfigurationControl.xaml.cs:353-360 | With two columns, a drag past the right edge selects column 2, which lies outside the grid. |
| TileSetConfiguration.CanvasMouseUpIntended | src/UI/Controls/TileSetConfigurationControl.xaml.cs:353-360 | With the ends clamped to the last tile, a toggle from a non-negative start keeps every exclusion inside the grid. |
| TileSetConfiguration.PerfectFit | src/UI/Controls/TileSetConfigurationControl.xaml.cs:307-315 | The evaluation throws only when both counts and the image are present and a count is zero. When both counts are set and non-zero it never throws. |
| TileSetConfiguration.PerfectFitMeansTiling | src/UI/Controls/TileSetConfigurationControl.xaml.cs:309-312 | When the mark is visible, both counts and the image are present, and the width and height are whole multiples of the counts. |
| TileSetConfiguration.TilingMeansPerfectFit | src/UI/Controls/TileSetConfigurationControl.xaml.cs:309-312 | An image whose width and height are whole multiples of non-zero counts shows the mark. |
| TileSetConfiguration.LoadTiles | src/UI/Controls/TileSetConfigurationControl.xaml.cs:89-92 | Adding stored exclusions one by one leaves the earlier tiles plus exactly the listed points. |
| TileSetConfiguration.Open | src/UI/Controls/FriendlyEncapsulation/TileSetControlManager.cs:19-27 | Opening the editor keeps the stored settings, sets the count boxes to the stored counts, and excludes exactly the stored tiles. |
| TileSetConfiguration.Apply | src/UI/Controls/FriendlyEncapsulation/TileSetControlManager.cs:46-57 | Applying hands over a record with the same asset, the counts as the properties read them (-1 for an empty box) and the excluded tiles, each listed once. The editor, including the settings it was opened with, is unchanged. |
| TileSetConfiguration.Cancel | src/UI/Controls/FriendlyEncapsulation/TileSetControlManager.cs:34-44 | Cancelling restores the counts and exactly the excluded tiles that opening the stored settings gives. |
| TileSetConfiguration.ApplyThenReopen | src/UI/Controls/FriendlyEncapsulation/TileSetControlManager.cs:46-57 | Opening an applied record gives back the same excluded tiles, the same asset, and the counts as applied, with an empty box coming back as -1. |
| TileSetConfiguration.CancelAfterApplyRestoresOpened | src/UI/Controls/FriendlyEncapsulation/TileSetControlManager.cs:34-57 | Cancelling after an apply goes back to the settings as first opened, not to the ones just applied, because the editor never replaces its stored settings. |
| Text.SplitJoin | src/UI/Controls/TileSetConfigurationControl.xaml.cs:237-239 | Splitting on a character and joining the parts with it gives the text back. |
| Text.SplitPair | src/UI/Controls/TileSetConfigurationControl.xaml.cs:212 | Two separator-free texts joined by the separator split into exactly those two parts. |
| Text.ParseShowInt | src/UI/Controls/TileSetConfigurationControl.xaml.cs:242 | The integer parser reads every 32-bit integer back from its decimal form. |

## Left out

- WPF presentation and event wiring: windows, dialogs, message boxes, sounds, key handling, and the text box that is cleared after Enter. These are UI glue.
- Canvas rendering and floating-point geometry (`Canvas_OnPaintSurface`, `GetDestinationRectangle`, `Canvas_OnMouseMove`). The double-to-int conversions at src/UI/Controls/TileSetConfigurationControl.xaml.cs:348-351 are left out too: the toggle starts from integer tile indices.
- WPF points hold doubles. Every point the control creates has whole coordinates, so points are integers here.
- The vault storage engine: src/Services/VaultManager.cs holds only stubs, and no group, world or asset operations are shown.
- FileManager.ReadSettings: a loaded document whose entries repeat a name is accepted unchanged, as the original does. `RemoveVaultKeepsOthers` and `RemoveVaultIdempotent` assume unique names, so they say nothing about such a registry; `LoadedDuplicateNamesDefeatIdempotence` shows what happens instead.
- The tile editor's image loading, the vault's `UpdateAsset` and its error dialog are left out. `Apply` gives the record that would be handed over. The order in which the set lists its tiles is a parameter; which tiles it lists, each once, is fixed by the set.
- The count up-downs' minimum and maximum are not modelled: a stored count is shown as it is.
- File I/O and the serializer: reading, writing and (de)serializing the settings file are abstracted. The file's content is an input, and the write's success is a parameter.
- The serializer's mapping of a .NET object to JSON members is left out. A payload is the member list of its JSON object, and numbers are integers.
- Reflection in `JnsServer`: attribute lookup and `Activator.CreateInstance` are replaced by a registration list. A converter is represented by the base type it serves.
- JnsConverter.Read: the cast to `T` is decided by the base type each concrete type was registered under. A deeper class hierarchy is not modelled.
- JnsConverter.Canonical: excludes a string token where the `type_value` name belongs. A JSON reader never produces one there, but the model's token type allows it.
- Text.ParseInt: `int.TryParse` is modelled without surrounding whitespace, culture-specific signs or thousands separators. It accepts an optional sign, at least one decimal digit, and the 32-bit range.
- src/Utils/GlobalOptions.cs and src/Services/GlobalOptions.cs configure the serializer; they are not part of this model.
- GUID generation is not modelled; a GUID is a 128-bit number.
- Event subscribers: raising an event with no subscriber is still recorded in the notification log.
- FileManager: the original keeps entries in a `HashSet` of reference-compared objects. Here they are a sequence, which follows the enumeration order until an entry is removed (see the next line).
- FileManager.CreateVault: appends the new entry at the end of the sequence. .NET's `HashSet` reuses the slot an earlier `Remove` freed, so after a removal the new entry can be enumerated, and written, at an earlier position. The model promises the registry's contents after a removal, not the order of the written document.
- A settings document whose `entries` is `null`, or holds a `null` entry, passes `required` (which checks only that the property is present). It then makes `GetEntry`, `CreateVault` and `RemoveVault` fail with a `NullReferenceException` (src/Services/FileManager.cs:41, 52, 65). The model's documents always hold a list of entries, so this failure is not represented.
- FileManager.Stored: a successful write is taken to leave a file that deserializes to the same document. The JSON round trip of `GlobalSettings` belongs to the serializer and is assumed rather than proved; a failed write leaves the file undetermined.
- The legacy duplicates of the data records under src/Types are not modelled separately; the records under src/Types/Data give the shapes.
- ObservableSets: `CopyTo`, the enumerators and `IsReadOnly` are left out; they do not change the set.

## Findings

| source | as written | input that shows it | evidently intended | confidence | as-written member | corrected member |
|---|---|---|---|---|---|---|
| src/UI/Controls/TileSetConfigurationControl.xaml.cs:199-205 | The range loops test only the corners, `Item1.X <= Item2.X` and `Item1.Y <= Item2.Y`, and never the loop variables. For x1 ≤ x2 the call never returns normally: with y1 ≤ y2 the inner loop adds tiles (0, y) until memory runs out, and with y1 > y2 the outer loop spins forever. Otherwise it reports success and adds nothing. | `(0;0)-(1;1)` with counts 2 × 2 | add every tile from (x1, y1) to (x2, y2) | high, from reading the loop conditions; not executed | TileSetConfiguration.RangeNeverReturns | TileSetConfiguration.TryAddExclusionIntended |
| src/UI/Controls/TileSetConfigurationControl.xaml.cs:353-360 | A drag end past the grid is clamped to `XCount` (and `YCount`), one past the last tile index. | X count 2, a drag from tile 0 to tile 5 in row 0: column 2 is toggled in | clamp to `XCount - 1` and `YCount - 1` | medium, inferred from the grid's index range; not executed | TileSetConfiguration.ClampAsWrittenLeavesGrid | TileSetConfiguration.CanvasMouseUpIntended |
