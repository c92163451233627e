/**
 * The mod browser screen's state and event handlers: the visible-mod list,
 * the artwork tables, the content cache, the current selection and page,
 * the page's list entries, and what it asks the host to do (panels opened,
 * actions deferred to the next tick).
 */
module ModBrowser {
  import opened Wrappers
  import opened Manifests
  import opened ModList
  import opened Labels
  import opened Artwork
  import opened Installation
  import opened Paging
  import opened Loading

  /** One button of the mod list: the mod, its index in the whole list, its digit hotkey and its logo. */
  datatype ModListItem = ModListItem(mod: Manifest, index: nat, hotkey: Option<nat>, logo: Option<Sprite>)

  /** `Dictionary.TryGetValue`: the sprite for the id, or null. */
  function Lookup(art: map<string, Sprite>, id: string): Option<Sprite> {
    if id in art then Some(art[id]) else None
  }

  class ModBrowserLogic {
    const allMods: seq<Manifest>
    const previews: map<string, Sprite>
    const logos: map<string, Sprite>
    const sheet: SheetBuilder
    /** `mod.Get<ModContent>(...)`: how the host derives a mod's content manifest. */
    const loadContent: Manifest -> ModContent
    /** The id of the running mod (`modData.Manifest.Id`). */
    const runningModId: string

    /** The `content` cache: content manifests derived so far. */
    var content: map<Manifest, ModContent>
    var selectedMod: Manifest
    var selectedAuthor: string
    var selectedDescription: string
    var modOffset: int
    /** The children of the mod list widget. */
    var modList: seq<ModListItem>
    /** Panels opened with `Ui.OpenWindow`, oldest first. */
    var windows: seq<Panel>
    /** Actions handed to `Game.RunAfterTick`, oldest first. */
    var deferred: seq<Deferred>

    /** The offset is reachable and every cached content manifest is the derived one. */
    ghost predicate Valid()
      reads this
    {
      && ReachableOffset(modOffset, |allMods|)
      && forall m :: m in content ==> content[m] == loadContent(m)
    }

    /**
     * The labels describe `mod`: "By " and its author ("unknown author" when
     * null), and its description with the escapes expanded.
     */
    ghost predicate LabelsDescribe(mod: Manifest)
      reads this
    {
      && selectedAuthor == (if mod.author.Some? then "By " + mod.author.value else "By unknown author")
      && selectedDescription == DescriptionLabel(mod.description)
    }

    /** What `LoadMod(mod)` does with the current selection and host state. */
    ghost function LoadOutcomeOf(mod: Manifest, baseInstalled: string -> bool, resolvePath: string -> string,
                                 fileExists: string -> bool): LoadOutcome
      reads this
    {
      DecideLoad(mod, selectedMod, loadContent(selectedMod), baseInstalled(mod.id),
                 ContentInstalled(loadContent(mod), resolvePath, fileExists))
    }

    /**
     * The content cache after `LoadMod(mod)`: the branches consult the
     * selected mod's content, the target's, or the target's and then the selected mod's.
     */
    ghost function CacheAfterLoad(cache: map<Manifest, ModContent>, mod: Manifest, baseInstalled: string -> bool,
                                  resolvePath: string -> string, fileExists: string -> bool): map<Manifest, ModContent>
      reads this
    {
      if !baseInstalled(mod.id) then cache[selectedMod := loadContent(selectedMod)]
      else if ContentInstalled(loadContent(mod), resolvePath, fileExists) then cache[mod := loadContent(mod)]
      else cache[mod := loadContent(mod)][selectedMod := loadContent(selectedMod)]
    }

    /** The list entries are the mods of the current page. */
    ghost predicate ListShowsPage()
      reads this
    {
      && 0 <= modOffset
      && |modList| == PageLength(modOffset, |allMods|)
      && forall k :: 0 <= k < |modList| ==>
           && modOffset + k < |allMods|
           && modList[k] == ModListItem(allMods[modOffset + k], modOffset + k, HotkeyDigit(modOffset + k),
                                        Lookup(logos, allMods[modOffset + k].id))
    }

    /**
     * Opening the screen: list the visible mods, load their artwork, select
     * the remembered mod (or "ra") and build the first page. The registry
     * must hold the mod that is selected (`Game.Mods["ra"]` throws otherwise).
     */
    constructor (registry: seq<Manifest>, previousMod: string, runningModId: string, loadContent: Manifest -> ModContent)
      requires InitialMod(registry, previousMod).Some?
      ensures Valid() && ListShowsPage()
      ensures allMods == VisibleMods(registry)
      ensures fresh(sheet) && sheet.packed == AllPackedImages(allMods)
      ensures ArtworkTable(allMods, Preview, previews, sheet.packed)
      ensures ArtworkTable(allMods, Logo, logos, sheet.packed)
      ensures ExactTable(allMods, Preview, previews) && ExactTable(allMods, Logo, logos)
      ensures DistinctSprites(previews, logos)
      ensures selectedMod == InitialMod(registry, previousMod).value
      ensures LabelsDescribe(selectedMod)
      ensures modOffset == ScrollOffset(IndexOf(allMods, selectedMod), 0)
      ensures content == map[] && windows == [] && deferred == []
      ensures this.runningModId == runningModId && this.loadContent == loadContent
    {
      var s := new SheetBuilder();
      var mods := VisibleMods(registry);
      var p, l := LoadArtwork(mods, s);
      sheet := s;
      allMods := mods;
      previews, logos := p, l;
      this.loadContent := loadContent;
      this.runningModId := runningModId;
      content := map[];
      windows, deferred := [], [];
      modList := [];
      modOffset := 0;
      var initial := InitialMod(registry, previousMod).value;
      selectedMod, selectedAuthor, selectedDescription := initial, "", "";
      new;
      assert ExactTable(allMods, Preview, previews) && ExactTable(allMods, Logo, logos);
      ghost var packed := sheet.packed;
      SelectMod(initial);
      assert LabelsDescribe(selectedMod);
      RebuildModList();
      assert sheet.packed == packed;
    }

    /** `content[mod]`: derive the mod's content manifest on first use, reuse it afterwards. */
    method GetContent(mod: Manifest) returns (c: ModContent)
      requires Valid()
      modifies this`content
      ensures Valid()
      ensures c == loadContent(mod)
      ensures mod in old(content) ==> c == old(content)[mod] && content == old(content)
      ensures content == old(content)[mod := c]
    {
      if mod in content {
        c := content[mod];
      } else {
        c := loadContent(mod);
        content := content[mod := c];
      }
    }

    /** Replaces the list entries with the mods of the current page. */
    method RebuildModList()
      requires 0 <= modOffset
      modifies this`modList
      ensures ListShowsPage()
    {
      modList := [];
      for i := 0 to PageSize
        invariant |modList| == i
        invariant i == 0 || modOffset + i <= |allMods|
        invariant forall k :: 0 <= k < |modList| ==>
          modList[k] == ModListItem(allMods[modOffset + k], modOffset + k, HotkeyDigit(modOffset + k),
                                    Lookup(logos, allMods[modOffset + k].id))
      {
        var j := i + modOffset;
        if j >= |allMods| {
          break;
        }
        var mod := allMods[j];
        var logo := Lookup(logos, mod.id);
        modList := modList + [ModListItem(mod, j, HotkeyDigit(j), logo)];
      }
    }

    /**
     * Selects a mod: updates the labels and scrolls forward just far enough
     * for the mod to be on the page. The list entries are not rebuilt.
     */
    method SelectMod(mod: Manifest)
      requires Valid()
      modifies this`selectedMod, this`selectedAuthor, this`selectedDescription, this`modOffset
      ensures Valid()
      ensures selectedMod == mod
      ensures LabelsDescribe(mod)
      ensures modOffset == ScrollOffset(IndexOf(allMods, mod), old(modOffset))
      ensures IndexOf(allMods, mod) - modOffset <= PageSize - 1
      ensures old(modOffset) <= modOffset
    {
      selectedMod := mod;
      selectedAuthor := "By " + mod.author.GetOr("unknown author");
      selectedDescription := ExpandNewlines(mod.description.GetOr(""));
      var selectedIndex := IndexOf(allMods, mod);
      if selectedIndex - modOffset > 4 {
        modOffset := selectedIndex - 4;
      }
      ScrollKeepsReachable(selectedIndex, old(modOffset), |allMods|);
    }

    /** Clicking a list entry selects its mod without scrolling, so the entries stay current. */
    method ItemClick(k: nat)
      requires Valid() && ListShowsPage() && k < |modList|
      modifies this`selectedMod, this`selectedAuthor, this`selectedDescription, this`modOffset
      ensures Valid() && ListShowsPage()
      ensures selectedMod == old(modList[k].mod) && modOffset == old(modOffset)
      ensures LabelsDescribe(selectedMod)
    {
      var mod := modList[k].mod;
      assert IndexOf(allMods, mod) <= modOffset + k;
      SelectMod(mod);
    }

    /** The "previous" button: when shown, moves the page back by one mod. */
    method ClickPrev()
      requires Valid()
      modifies this`modOffset, this`modList
      ensures Valid()
      ensures modOffset == if PrevVisible(old(modOffset)) then old(modOffset) - 1 else old(modOffset)
      ensures PrevVisible(old(modOffset)) ==> ListShowsPage()
      ensures !PrevVisible(old(modOffset)) ==> modList == old(modList)
    {
      if PrevVisible(modOffset) {
        modOffset := modOffset - 1;
        RebuildModList();
      }
    }

    /** The "next" button: when shown, moves the page forward by one mod. */
    method ClickNext()
      requires Valid()
      modifies this`modOffset, this`modList
      ensures Valid()
      ensures modOffset == if NextVisible(old(modOffset), |allMods|) then old(modOffset) + 1 else old(modOffset)
      ensures NextVisible(old(modOffset), |allMods|) ==> ListShowsPage()
      ensures !NextVisible(old(modOffset), |allMods|) ==> modList == old(modList)
    {
      if NextVisible(modOffset, |allMods|) {
        modOffset := modOffset + 1;
        RebuildModList();
      }
    }

    /** The browser's `IsModInstalled`: the required content of the mod is on disk. */
    method IsModInstalled(mod: Manifest, resolvePath: string -> string, fileExists: string -> bool) returns (installed: bool)
      requires Valid()
      modifies this`content
      ensures Valid() && content == old(content)[mod := loadContent(mod)]
      ensures installed == ContentInstalled(loadContent(mod), resolvePath, fileExists)
    {
      var c := GetContent(mod);
      installed := ContentInstalled(c, resolvePath, fileExists);
    }

    /**
     * Activating a mod: `baseInstalled` is the host's `Game.IsModInstalled`,
     * `resolvePath` and `fileExists` the host's file system. Opens a panel or
     * queues the load action as `DecideLoad` says.
     */
    method LoadMod(mod: Manifest, baseInstalled: string -> bool, resolvePath: string -> string, fileExists: string -> bool)
      requires Valid()
      modifies this`content, this`windows, this`deferred
      ensures Valid()
      ensures var outcome := LoadOutcomeOf(mod, baseInstalled, resolvePath, fileExists);
              && windows == old(windows) + (if outcome.OpenPanel? then [outcome.panel] else [])
              && deferred == old(deferred) + (if outcome.Schedule? then [outcome.action] else [])
      ensures content == CacheAfterLoad(old(content), mod, baseInstalled, resolvePath, fileExists)
    {
      var modId := mod.id;
      if !baseInstalled(modId) {
        var c := GetContent(selectedMod);
        windows := windows + [InstallModPanel(selectedMod, c)];
        return;
      }
      var installed := IsModInstalled(mod, resolvePath, fileExists);
      if !installed {
        var c := GetContent(selectedMod);
        windows := windows + [ContentPromptPanel(selectedMod, c, ContinueLoading(modId))];
        return;
      }
      deferred := deferred + [FinalizeLoad(modId)];
    }

    /** The load button is disabled while the running mod itself is selected. */
    predicate LoadDisabled()
      reads this
    {
      selectedMod.id == runningModId
    }

    /** The load button: loads the selected mod unless disabled. */
    method ClickLoad(baseInstalled: string -> bool, resolvePath: string -> string, fileExists: string -> bool)
      requires Valid()
      modifies this`content, this`windows, this`deferred
      ensures Valid()
      ensures LoadDisabled() ==> windows == old(windows) && deferred == old(deferred) && content == old(content)
      ensures !LoadDisabled() ==>
        var outcome := LoadOutcomeOf(selectedMod, baseInstalled, resolvePath, fileExists);
        && windows == old(windows) + (if outcome.OpenPanel? then [outcome.panel] else [])
        && deferred == old(deferred) + (if outcome.Schedule? then [outcome.action] else [])
        && content == CacheAfterLoad(old(content), selectedMod, baseInstalled, resolvePath, fileExists)
    {
      if !LoadDisabled() {
        LoadMod(selectedMod, baseInstalled, resolvePath, fileExists);
      }
    }

    /** The configure button: opens the content panel for the selected mod. */
    method ClickConfigure()
      requires Valid()
      modifies this`content, this`windows
      ensures Valid()
      ensures windows == old(windows) + [ContentPanel(selectedMod, loadContent(selectedMod))]
      ensures content == old(content)[selectedMod := loadContent(selectedMod)]
    {
      var c := GetContent(selectedMod);
      windows := windows + [ContentPanel(selectedMod, c)];
    }

    /** A key press on a list entry: a double tap loads its mod, anything else selects it. */
    method ItemKeyPress(k: nat, multiTapCount: int, baseInstalled: string -> bool,
                        resolvePath: string -> string, fileExists: string -> bool)
      requires Valid() && ListShowsPage() && k < |modList|
      modifies this`selectedMod, this`selectedAuthor, this`selectedDescription, this`modOffset
      modifies this`content, this`windows, this`deferred
      ensures Valid() && ListShowsPage() && modOffset == old(modOffset)
      ensures multiTapCount == 2 ==>
        var mod := old(modList[k].mod);
        var outcome := LoadOutcomeOf(mod, baseInstalled, resolvePath, fileExists);
        && selectedMod == old(selectedMod)
        && selectedAuthor == old(selectedAuthor) && selectedDescription == old(selectedDescription)
        && windows == old(windows) + (if outcome.OpenPanel? then [outcome.panel] else [])
        && deferred == old(deferred) + (if outcome.Schedule? then [outcome.action] else [])
        && content == CacheAfterLoad(old(content), mod, baseInstalled, resolvePath, fileExists)
      ensures multiTapCount != 2 ==>
        && selectedMod == old(modList[k].mod) && LabelsDescribe(selectedMod)
        && content == old(content) && windows == old(windows) && deferred == old(deferred)
    {
      if multiTapCount == 2 {
        LoadMod(modList[k].mod, baseInstalled, resolvePath, fileExists);
      } else {
        ItemClick(k);
      }
    }

    /** Once the list shows the page, it has exactly min(5, |allMods|) entries, the mods from the offset on. */
    lemma PageIsWindow()
      requires Valid() && ListShowsPage()
      ensures |modList| == if |allMods| < PageSize then |allMods| else PageSize
      ensures modOffset + |modList| <= |allMods|
      ensures forall k :: 0 <= k < |modList| ==> modList[k].mod == allMods[modOffset + k]
      ensures forall k :: 0 <= k < |modList| ==>
        modList[k].hotkey == if modOffset + k < HotkeyCount then Some(modOffset + k + 1) else None
    {
      ReachablePageIsFull(modOffset, |allMods|);
    }
  }
}
