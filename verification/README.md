# OpenRA mod browser, modelled in Dafny

This project models the logic of OpenRA's mod chooser screen
(`ModBrowserLogic`) and proves properties of it. The screen lists the
installed mods that are not hidden, sorted by title. It shows them five at a
time with previous/next paging and digit hotkeys for the first nine. It keeps
preview and logo artwork packed into one sprite sheet. When a mod is activated,
it decides whether to open the install-mod panel, open the missing-content
prompt, or queue the action that leaves the screen and starts the mod.

Files and modules:

- `wrappers.dfy` (`Wrappers`): `Option`, which stands for a C# reference that may be null.
- `manifests.dfy` (`Manifests`): mod manifests, the two artwork files of a package as decoded images, and content manifests.
- `title_order.dfy` (`TitleOrder`): the string order used for titles, proved a total order.
- `mod_list.dfy` (`ModList`): the `Where(!Hidden).OrderBy(Title)` list, `Array.IndexOf`, registry lookup by id and the initial selection.
- `labels.dfy` (`Labels`): the description with `\n` escapes expanded. `EscapeNewlines`, the inverse that writes each line break as backslash, n, exists only to state the round trip `ExpandEscapeRoundTrip`; the browser never escapes text.
- `artwork.dfy` (`Artwork`): the sprite sheet (`SheetBuilder`) and the constructor's artwork ingestion loop.
- `installation.dfy` (`Installation`): the required-content check.
- `paging.dfy` (`Paging`): the scroll rule, the paging button guards, page length and hotkeys.
- `loading.dfy` (`Loading`): the three-way load decision and the host actions it produces.
- `mod_browser.dfy` (`ModBrowser`): the `ModBrowserLogic` class. Its fields are the screen's state, and its methods are the constructor and the event handlers.
- `scenarios.dfy` (`Scenarios`): two concrete situations.

Host services are explicit inputs:

- the mod registry `Game.Mods`, the remembered mod id, the running mod's id and the content derivation `mod.Get<ModContent>` are constructor parameters;
- `Game.IsModInstalled`, `Platform.ResolvePath` and `File.Exists` are function parameters of the handlers that use them;
- `Ui.OpenWindow` is recorded by appending to the `windows` field;
- `Game.RunAfterTick` is recorded by appending to the `deferred` queue.

Facts of the code that the model keeps:

- Artwork is read only for the visible mods (`allMods`), not for the whole registry.
- Sorting is stable.
- The install panel and the content prompt both show the *selected* mod and its content, even when a different mod was activated.
- The content prompt's continuation only initialises the mod, with an empty argument list. It does not close the screen or dispose the sheet.
- `SelectMod` scrolls only forward and does not rebuild the list. This is harmless from the UI, because a list entry's click or hotkey never scrolls (`ItemClick`).
- The previous/next click handlers (lines 77 and 81) change the offset without a check of their own. The guard in `ClickPrev` and `ClickNext` stands for the toolkit, which does not deliver clicks to a button whose `IsVisible` (lines 78 and 82) is false.
- Paging back can leave the selected mod past the end of the page. The window rule `index - offset <= 4` is established by each selection, not kept by paging.
- Every offset the screen can reach is 0 or leaves a full page. So the list always has `min(5, |allMods|)` entries (`PageIsWindow`).
- For a registry holding "Red Alert" (ra), "Tiberian Dawn" (cnc) and a hidden mod, the list is `[ra, cnc]`: titles sort R before T.

## Model

| member | source | states |
|---|---|---|
| TitleOrder.LeqReflexive | OpenRA.Mods.Common/Widgets/Logic/ModBrowserLogic.cs:93 | every title sorts no later than itself |
| TitleOrder.LeqTotal | OpenRA.Mods.Common/Widgets/Logic/ModBrowserLogic.cs:93 | any two titles are comparable |
| TitleOrder.LeqAntisymmetric | OpenRA.Mods.Common/Widgets/Logic/ModBrowserLogic.cs:93 | titles that sort no later than each other are equal |
| TitleOrder.LeqTransitive | OpenRA.Mods.Common/Widgets/Logic/ModBrowserLogic.cs:93 | the title order is transitive |
| ModList.NotHidden | OpenRA.Mods.Common/Widgets/Logic/ModBrowserLogic.cs:92 | a mod is kept iff it is in the registry and not hidden; no kept mod is hidden |
| ModList.NotHiddenCounts | OpenRA.Mods.Common/Widgets/Logic/ModBrowserLogic.cs:92 | the filter keeps each non-hidden mod exactly as often as the registry holds it, and no hidden one |
| ModList.InsertSorted | OpenRA.Mods.Common/Widgets/Logic/ModBrowserLogic.cs:93 | inserting into a title-sorted list keeps it sorted |
| ModList.InsertCounts | OpenRA.Mods.Common/Widgets/Logic/ModBrowserLogic.cs:93 | insertion adds exactly that mod to the multiset |
| ModList.SortSorted | OpenRA.Mods.Common/Widgets/Logic/ModBrowserLogic.cs:93 | the sort's result is sorted by title and is a permutation of its input |
| ModList.InsertStable | OpenRA.Mods.Common/Widgets/Logic/ModBrowserLogic.cs:93 | the inserted mod goes before the mods that share its title |
| ModList.SortStable | OpenRA.Mods.Common/Widgets/Logic/ModBrowserLogic.cs:93 | mods sharing a title keep their registry order (OrderBy is stable) |
| ModList.VisibleModsCorrect | OpenRA.Mods.Common/Widgets/Logic/ModBrowserLogic.cs:92-94 | `allMods` (`VisibleMods`) holds a mod iff the registry does and it is not hidden; each non-hidden mod occurs exactly as often as in the registry; it is sorted by title; same-title mods keep registry order |
| ModList.IndexOf | OpenRA.Mods.Common/Widgets/Logic/ModBrowserLogic.cs:175 | -1 iff the mod is absent; otherwise the index of its first occurrence |
| ModList.FindById | OpenRA.Mods.Common/Widgets/Logic/ModBrowserLogic.cs:119 | returns a registry mod with that id, and None iff no registry mod has the id |
| ModList.InitialMod | OpenRA.Mods.Common/Widgets/Logic/ModBrowserLogic.cs:118-120 | the remembered mod when the registry has it and it is not the chooser, else the "ra" mod; None exactly when neither is available |
| Labels.ExpandNewlines | OpenRA.Mods.Common/Widgets/Logic/ModBrowserLogic.cs:174 | expansion never lengthens the text; the first character is 'n' iff the input's is |
| Labels.DescriptionLabel | OpenRA.Mods.Common/Widgets/Logic/ModBrowserLogic.cs:174 | empty for a null description; otherwise the raw description with `ExpandNewlines` applied; the label holds no backslash-n sequence |
| Labels.ExpandedIsEscapeFree | OpenRA.Mods.Common/Widgets/Logic/ModBrowserLogic.cs:174 | after the replacement no backslash is followed by n, even across a replaced pair |
| Labels.ExpandEscapeFree | OpenRA.Mods.Common/Widgets/Logic/ModBrowserLogic.cs:174 | text without escapes is left unchanged |
| Labels.ExpandIdempotent | OpenRA.Mods.Common/Widgets/Logic/ModBrowserLogic.cs:174 | replacing twice gives the same as replacing once |
| Labels.ExpandEscapeRoundTrip | OpenRA.Mods.Common/Widgets/Logic/ModBrowserLogic.cs:174 | for any text without backslash-n sequences of its own, expanding the escaped text gives the text back |
| Artwork.SheetBuilder.Add | OpenRA.Mods.Common/Widgets/Logic/ModBrowserLogic.cs:104 | appends the bitmap to the sheet and returns the sprite for its position |
| Artwork.AddArtwork | OpenRA.Mods.Common/Widgets/Logic/ModBrowserLogic.cs:99-106 | packs the image only if it decoded at exactly the expected size; records the sprite unless the id already has one (the duplicate-key exception is swallowed after packing) |
| Artwork.TableStep | OpenRA.Mods.Common/Widgets/Logic/ModBrowserLogic.cs:97-116 | one mod's step keeps the table exact: ids with accepted artwork, each sprite holding an image of the expected size |
| Artwork.DistinctStep | OpenRA.Mods.Common/Widgets/Logic/ModBrowserLogic.cs:104 | sprites handed out past all existing ones keep every table entry's sprite distinct |
| Artwork.IngestMod | OpenRA.Mods.Common/Widgets/Logic/ModBrowserLogic.cs:99-115 | one loop pass, preview then logo: the sheet gains this mod's accepted images in that order; each table gains exactly this mod's sprite (the preview at the next sheet position, the logo after it) when its image is accepted and the id is new, and is otherwise unchanged; a failure on one image skips only that image |
| Artwork.ExactStep | OpenRA.Mods.Common/Widgets/Logic/ModBrowserLogic.cs:104 | after one pass every id still maps to the sprite of its own image, the one packed for the first mod with that id whose artwork was accepted |
| Artwork.IngestStep | OpenRA.Mods.Common/Widgets/Logic/ModBrowserLogic.cs:97-116 | one pass keeps the ingested state exact: sheet contents, id sets, image sizes, own-image sprites and distinct sprites |
| Artwork.LoadArtwork | OpenRA.Mods.Common/Widgets/Logic/ModBrowserLogic.cs:96-116 | previews holds exactly the ids of mods with a 296x196 preview, logos exactly those with a 96x96 logo; each id's sprite is the position where the first mod with that id and accepted artwork had its own image packed; every sprite holds such an image; sprites are distinct; the sheet holds the accepted images in order |
| Installation.AllFilesExist | OpenRA.Mods.Common/Widgets/Logic/ModBrowserLogic.cs:222 | true iff every listed file exists at its resolved path |
| Installation.RequiredPackagesPresent | OpenRA.Mods.Common/Widgets/Logic/ModBrowserLogic.cs:220-222 | true iff every test file of every required package exists at its resolved path |
| Installation.MissingRequiredFile | OpenRA.Mods.Common/Widgets/Logic/ModBrowserLogic.cs:218-223 | one missing test file of a required package makes the mod not installed |
| Installation.OptionalPackageIgnored | OpenRA.Mods.Common/Widgets/Logic/ModBrowserLogic.cs:221 | adding a package that is not required never changes the result |
| Paging.ScrollOffset | OpenRA.Mods.Common/Widgets/Logic/ModBrowserLogic.cs:175-177 | the selection ends at most 4 past the offset; the offset only grows, and only to exactly index - 4; it is unchanged when the mod is already in the window or absent |
| Paging.PageLength | OpenRA.Mods.Common/Widgets/Logic/ModBrowserLogic.cs:135-139 | a page has min(5, count - offset) entries: 5, or as many as remain before the end; 0 at or past the end |
| Paging.ReachablePageIsFull | OpenRA.Mods.Common/Widgets/Logic/ModBrowserLogic.cs:132-139 | at every reachable offset the page has min(5, list length) entries |
| Paging.ScrollKeepsReachable | OpenRA.Mods.Common/Widgets/Logic/ModBrowserLogic.cs:175-177 | selecting keeps the offset non-negative and leaving a full page |
| Paging.PrevKeepsReachable | OpenRA.Mods.Common/Widgets/Logic/ModBrowserLogic.cs:76-78 | paging back while the button shows keeps the offset reachable, in particular non-negative |
| Paging.NextKeepsReachable | OpenRA.Mods.Common/Widgets/Logic/ModBrowserLogic.cs:80-82 | paging forward while the button shows keeps the offset reachable |
| Loading.DecideLoad | OpenRA.Mods.Common/Widgets/Logic/ModBrowserLogic.cs:180-216 | an action is queued iff the mod is installed and its content is present; panels show the selected mod and its content; something eventually initialises the target iff it is installed, with null arguments when its content is present and empty ones after the prompt; only the direct path closes the window and disposes the sheet; the queued action's steps are exactly close window, dispose sheet, initialise the target with null arguments; the prompt's continuation is exactly initialise the target with empty arguments |
| ModBrowser.ModBrowserLogic.constructor | OpenRA.Mods.Common/Widgets/Logic/ModBrowserLogic.cs:46-123 | builds the visible list, the artwork tables (exact, own-image sprites) and sheet as LoadArtwork states, selects the initial mod, scrolls to it and shows the page; the cache, panels and queue start empty |
| ModBrowser.ModBrowserLogic.GetContent | OpenRA.Mods.Common/Widgets/Logic/ModBrowserLogic.cs:30 | returns the derived content manifest; a cache hit leaves the cache unchanged; a miss stores the derived value |
| ModBrowser.ModBrowserLogic.RebuildModList | OpenRA.Mods.Common/Widgets/Logic/ModBrowserLogic.cs:125-168 | the entries are allMods[offset ..] for at most 5 mods, in order, each with its global index, its digit hotkey (`HotkeyDigit`) and its logo looked up by id (`Lookup`, the TryGetValue of line 162) |
| ModBrowser.ModBrowserLogic.SelectMod | OpenRA.Mods.Common/Widgets/Logic/ModBrowserLogic.cs:170-178 | sets the selection; the author label is "By " + author, or "By unknown author" when null; the description label is DescriptionLabel's; the offset follows ScrollOffset, so index - offset <= 4 afterwards and the offset never decreases |
| ModBrowser.ModBrowserLogic.ItemClick | OpenRA.Mods.Common/Widgets/Logic/ModBrowserLogic.cs:146 | clicking an entry selects its mod, sets both labels as SelectMod does, and never scrolls, so the entries stay current |
| ModBrowser.ModBrowserLogic.ClickPrev | OpenRA.Mods.Common/Widgets/Logic/ModBrowserLogic.cs:76-78 | decrements the offset and rebuilds the list exactly when the button is shown (`PrevVisible`: offset > 0); otherwise nothing changes |
| ModBrowser.ModBrowserLogic.ClickNext | OpenRA.Mods.Common/Widgets/Logic/ModBrowserLogic.cs:80-82 | increments the offset and rebuilds the list exactly when the button is shown (`NextVisible`: offset + 5 < list length); otherwise nothing changes |
| ModBrowser.ModBrowserLogic.IsModInstalled | OpenRA.Mods.Common/Widgets/Logic/ModBrowserLogic.cs:218-223 | the result is the required-content check of the mod's derived content; the cache gains that mod |
| ModBrowser.ModBrowserLogic.LoadMod | OpenRA.Mods.Common/Widgets/Logic/ModBrowserLogic.cs:180-216 | opens the panel or queues the action DecideLoad gives; the cache gains the mods each branch consults |
| ModBrowser.ModBrowserLogic.ClickLoad | OpenRA.Mods.Common/Widgets/Logic/ModBrowserLogic.cs:50-51 | does nothing while the running mod is selected (`LoadDisabled`); otherwise opens the panel or queues the action DecideLoad gives for the selected mod, and updates the cache as LoadMod does |
| ModBrowser.ModBrowserLogic.ClickConfigure | OpenRA.Mods.Common/Widgets/Logic/ModBrowserLogic.cs:53-64 | opens the content panel with the selected mod and its content |
| ModBrowser.ModBrowserLogic.ItemKeyPress | OpenRA.Mods.Common/Widgets/Logic/ModBrowserLogic.cs:148-154 | a double tap loads the entry's mod as LoadMod does (panels, queue, cache) and leaves selection and labels as they were; anything else selects it and sets both labels, leaving cache, panels and queue unchanged; the page never scrolls |
| ModBrowser.ModBrowserLogic.PageIsWindow | OpenRA.Mods.Common/Widgets/Logic/ModBrowserLogic.cs:132-141 | the shown list has exactly min(5, list length) entries, the mods from the offset on; the entry at global index j has hotkey digit j + 1 when j < 9 and none otherwise |
| Scenarios.TwoVisibleMods | OpenRA.Mods.Common/Widgets/Logic/ModBrowserLogic.cs:76-94 | two visible mods and a hidden one give the two in title order, one page of two, no paging buttons |
| Scenarios.SelectSeventhOfTen | OpenRA.Mods.Common/Widgets/Logic/ModBrowserLogic.cs:175-177 | selecting index 6 from offset 0 in ten mods scrolls to offset 2 |

## Left out

- Widget construction and layout are not modelled. This covers template cloning, bounds, margins and centering (lines 129-133 and 143-144), tooltips (156), highlight getters (145), the label text getters (71-74), the preview sprite getter (84-89) and the logo/no-logo visibility closures (163-164). These belong to the UI toolkit. A list entry carries its logo as an optional sprite instead.
- Bitmap decoding and SheetBuilder packing are not modelled. They are graphics library calls. A package file is modelled as a decoded size or a failure, and a sprite is its position in packing order.
- Running deferred actions is not modelled. The host runs them after the tick. The model only queues them, so the sheet is never actually disposed here. Nothing debounces rapid repeated activation: each activation of a ready mod queues one more action.
- `Ui.CloseWindow`, `Game.InitializeMod` and `Game.Exit` (the quit button, line 66) are host calls. They appear only as recorded steps of a deferred action, or not at all.
- A failing content derivation is not modelled. `mod.Get<ModContent>` is taken as a total function, so its exception path is absent.
- Titles are compared by ordinal character order. The culture-sensitive default string comparer used by `OrderBy` is not modelled.
- Manifests are compared as values, not by reference. This affects `Array.IndexOf`, the cache keys and the highlight. Two manifests with equal fields are one mod in the model.
- ModBrowser.ModBrowserLogic.constructor: requires that the registry has the mod to select. The source's `Game.Mods["ra"]` throws when it does not.
- The double-click handler (line 147) is not a separate member. It calls `LoadMod` on the entry's mod, which is modelled.
- Keycodes are modelled as the digit 1-9 rather than as `Keycode` enum values.
