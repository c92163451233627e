/**
 * The load decision: what activating a mod leads to. Either a host panel
 * is opened (install the mod, or install its missing content), or a
 * deferred action is queued for the next tick that leaves the browser and
 * initialises the mod.
 */
module Loading {
  import opened Wrappers
  import opened Manifests

  /** The host calls a deferred action makes, in order. */
  datatype HostStep =
    | CloseWindow                                           // Ui.CloseWindow
    | DisposeSheet                                          // sheetBuilder.Dispose
    | InitializeMod(modId: string, args: Option<seq<string>>)  // Game.InitializeMod; None is a null Arguments

  /** An action handed to `Game.RunAfterTick`, run by the host after the current tick. */
  datatype Deferred = Deferred(steps: seq<HostStep>)

  /** The host panels the browser opens with `Ui.OpenWindow`, with the arguments it passes. */
  datatype Panel =
    | ContentPanel(mod: Manifest, content: ModContent)        // "CONTENT_PANEL", with a no-op onCancel
    | InstallModPanel(mod: Manifest, content: ModContent)     // "INSTALL_MOD_PANEL"
    | ContentPromptPanel(mod: Manifest, content: ModContent, continueLoading: Deferred)  // "CONTENT_PROMPT_PANEL"

  datatype LoadOutcome = OpenPanel(panel: Panel) | Schedule(action: Deferred)

  /** What the content prompt's `continueLoading` queues: initialise the mod with an empty argument list. */
  function ContinueLoading(modId: string): Deferred {
    Deferred([InitializeMod(modId, Some([]))])
  }

  /** The action queued when a mod is ready: close the browser, release the sheet, then initialise the mod with null arguments. */
  function FinalizeLoad(modId: string): Deferred {
    Deferred([CloseWindow, DisposeSheet, InitializeMod(modId, None)])
  }

  /** The deferred action an outcome queues now, or offers as the continuation of the panel it opens. */
  function EventualAction(o: LoadOutcome): Option<Deferred> {
    match o
    case Schedule(d) => Some(d)
    case OpenPanel(ContentPromptPanel(_, _, d)) => Some(d)
    case OpenPanel(_) => None
  }

  /** The mod a deferred action initialises, with the arguments it passes. */
  function Initialized(d: Deferred): Option<(string, Option<seq<string>>)> {
    if d.steps != [] && d.steps[|d.steps| - 1].InitializeMod?
    then Some((d.steps[|d.steps| - 1].modId, d.steps[|d.steps| - 1].args))
    else None
  }

  /**
   * `LoadMod(target)`: `baseInstalled` is the host's answer for the target's
   * id, `contentInstalled` the browser's content check of the target. The
   * panels surface the SELECTED mod and its content, not the target's.
   */
  function DecideLoad(target: Manifest, selected: Manifest, selectedContent: ModContent,
                      baseInstalled: bool, contentInstalled: bool): (r: LoadOutcome)
    ensures r.Schedule? <==> baseInstalled && contentInstalled
    ensures r.OpenPanel? ==> !r.panel.ContentPanel? && r.panel.mod == selected && r.panel.content == selectedContent
    ensures r.Schedule? ==> r.action.steps == [CloseWindow, DisposeSheet, InitializeMod(target.id, None)]
    ensures r.OpenPanel? && r.panel.ContentPromptPanel? ==>
      r.panel.continueLoading.steps == [InitializeMod(target.id, Some([]))]
    ensures EventualAction(r).Some? <==> baseInstalled
    ensures EventualAction(r).Some? ==>
      Initialized(EventualAction(r).value) == Some((target.id, if contentInstalled then None else Some([])))
    ensures EventualAction(r).Some? ==>
      (DisposeSheet in EventualAction(r).value.steps <==> contentInstalled) &&
      (CloseWindow in EventualAction(r).value.steps <==> contentInstalled)
  {
    if !baseInstalled then OpenPanel(InstallModPanel(selected, selectedContent))
    else if !contentInstalled then OpenPanel(ContentPromptPanel(selected, selectedContent, ContinueLoading(target.id)))
    else Schedule(FinalizeLoad(target.id))
  }
}
