/** A base room of the game data: the cutscene scripts opened on entering
    it, and its one-shot display initialisation. */
module GameData {
  import opened Common

  /** A cutscene script to open, identified by its path. */
  datatype ThnScript = ThnScript(path: string)

  /** The delegate stored in `InitAction`; its side effects are represented
      by recording that it ran. */
  datatype Action = Action(id: nat)

  /** The room fields the two operations read or write, plus `StartScript`,
      whose line in `OpenScripts` is commented out; the remaining fields
      (hotspots, NPCs, music, ...) are plain data and are omitted. */
  datatype BaseRoom = BaseRoom(
    thnPaths: seq<string>,
    startScript: Option<string>,
    landScript: Option<string>,
    goodscartScript: Option<string>,
    initAction: Option<Action>)

  /** One `ThnScript` per path, in list order. */
  function ScriptsOf(paths: seq<string>): seq<ThnScript>
  {
    seq(|paths|, i requires 0 <= i < |paths| => ThnScript(paths[i]))
  }

  /** The scripts of `OpenScripts(landScript)`: every `ThnPaths` entry in
      order, then the goods-cart script when set, then the landing script
      when set and asked for. The start script is never opened. */
  function OpenScripts(room: BaseRoom, landScript: bool): (r: seq<ThnScript>)
    ensures |r| == |room.thnPaths|
                   + (if room.goodscartScript.Some? then 1 else 0)
                   + (if room.landScript.Some? && landScript then 1 else 0)
    ensures forall i :: 0 <= i < |room.thnPaths| ==> r[i] == ThnScript(room.thnPaths[i])
    ensures room.goodscartScript.Some? ==>
              r[|room.thnPaths|] == ThnScript(room.goodscartScript.value)
    ensures room.landScript.Some? && landScript ==>
              r[|r| - 1] == ThnScript(room.landScript.value)
  {
    ScriptsOf(room.thnPaths)
    + (if room.goodscartScript.Some? then [ThnScript(room.goodscartScript.value)] else [])
    + (if room.landScript.Some? && landScript then [ThnScript(room.landScript.value)] else [])
  }

  /** The start script has no influence on the scripts opened. */
  lemma StartScriptNeverOpened(room: BaseRoom, start: Option<string>, landScript: bool)
    ensures OpenScripts(room.(startScript := start), landScript) == OpenScripts(room, landScript)
  {
  }

  /** Without the landing script asked for, the scripts opened are the same
      list cut before the landing script: a prefix of the full list, equal to
      it unless a landing script is set. */
  lemma LandScriptOnlyOnRequest(room: BaseRoom)
    ensures OpenScripts(room, false) <= OpenScripts(room, true)
    ensures |OpenScripts(room, true)| - |OpenScripts(room, false)|
         == (if room.landScript.Some? then 1 else 0)
  {
  }

  /** The paths of the scripts opened, read back, are the `ThnPaths` entries
      followed by the optional goods-cart and landing scripts. */
  lemma OpenScriptsPaths(room: BaseRoom, landScript: bool)
    ensures var r := OpenScripts(room, landScript);
            (seq(|r|, i requires 0 <= i < |r| => r[i].path))
            == room.thnPaths
               + (if room.goodscartScript.Some? then [room.goodscartScript.value] else [])
               + (if room.landScript.Some? && landScript then [room.landScript.value] else [])
  {
  }

  /** How the delegate behaves when it is run: it returns normally, or it
      throws, and the exception leaves `InitForDisplay` before `InitAction`
      is cleared. */
  datatype ActionOutcome = Returns | Throws

  /** The room after `InitForDisplay`, the actions it ran (in order), and
      whether the call ended with the delegate's exception. */
  datatype InitOutcome = InitOutcome(room: BaseRoom, ran: seq<Action>, threw: bool)

  /** `InitForDisplay`, where `how` says what the delegate does if it runs:
      a pending action runs; it is cleared only when it returns normally.
      Without a pending action nothing runs. No other field changes. */
  function InitForDisplay(room: BaseRoom, how: ActionOutcome): (r: InitOutcome)
    ensures r.ran == (if room.initAction.Some? then [room.initAction.value] else [])
    ensures r.threw <==> room.initAction.Some? && how == Throws
    ensures r.room == (if r.threw then room else room.(initAction := None))
  {
    match room.initAction
    case None => InitOutcome(room, [], false)
    case Some(a) =>
      if how.Returns? then InitOutcome(room.(initAction := None), [a], false)
      else InitOutcome(room, [a], true)
  }

  /** `InitForDisplay` called once per entry of `hows`, the caller going on
      after an exception; `hows[k]` is what the delegate does if it runs on
      call `k`. Collects every action run. */
  function InitRepeatedly(room: BaseRoom, hows: seq<ActionOutcome>): InitOutcome
    decreases |hows|
  {
    if |hows| == 0 then InitOutcome(room, [], false)
    else
      var first := InitForDisplay(room, hows[0]);
      var rest := InitRepeatedly(first.room, hows[1..]);
      InitOutcome(rest.room, first.ran + rest.ran, rest.threw)
  }

  /** The index of the first call whose delegate returns normally, or
      `|hows|` when every call throws. */
  function FirstReturn(hows: seq<ActionOutcome>): (k: nat)
    ensures k <= |hows|
    ensures k < |hows| ==> hows[k] == Returns
    ensures forall j :: 0 <= j < k ==> hows[j] == Throws
    decreases |hows|
  {
    if |hows| == 0 then 0
    else if hows[0].Returns? then 0
    else
      var k := FirstReturn(hows[1..]);
      assert forall j :: 0 <= j < k ==> hows[1..][j] == hows[j + 1];
      1 + k
  }

  /** A pending action is run again on every call until one run returns
      normally, and never after that; when every run threw, the original
      action is still pending and the room is exactly as it was. A room
      without a pending action is left unchanged and nothing runs. No other
      field of the room ever changes. */
  lemma {:induction false} InitRunsUntilReturn(room: BaseRoom, hows: seq<ActionOutcome>)
    ensures var r := InitRepeatedly(room, hows);
            && |r.ran| == (if room.initAction.None? then 0
                           else if FirstReturn(hows) < |hows| then FirstReturn(hows) + 1
                           else |hows|)
            && (forall i :: 0 <= i < |r.ran| ==> r.ran[i] == room.initAction.value)
            && r.room.(initAction := None) == room.(initAction := None)
            && r.room.initAction == (if FirstReturn(hows) < |hows| then None else room.initAction)
            && (room.initAction.None? || FirstReturn(hows) == |hows| ==> r.room == room)
    decreases |hows|
  {
    if |hows| > 0 {
      var first := InitForDisplay(room, hows[0]);
      InitRunsUntilReturn(first.room, hows[1..]);
      if room.initAction.Some? && hows[0] == Throws {
        assert FirstReturn(hows) == 1 + FirstReturn(hows[1..]);
      }
    }
  }

  /** When the delegate returns normally, repeated calls run a pending
      action exactly once and then leave the room as it is. */
  lemma InitRunsOnceIfItReturns(room: BaseRoom, hows: seq<ActionOutcome>)
    requires |hows| >= 1 && hows[0] == Returns
    ensures InitRepeatedly(room, hows).ran
         == (if room.initAction.Some? then [room.initAction.value] else [])
    ensures InitRepeatedly(room, hows).room == room.(initAction := None)
  {
    InitRunsUntilReturn(room, hows);
    var r := InitRepeatedly(room, hows);
    if room.initAction.Some? {
      assert |r.ran| == 1;
    }
  }
}
