/** Choosing a destination in the menu: move the current page onto the target, tell the
    optional observer, and show a toast naming both pages. */
module Dispatch {
  import opened JsBuiltins
  import opened Pinboard

  /** Position i holds the first page whose identifier is dropId. */
  predicate IsTarget(metas: seq<PageMeta>, dropId: string, i: int) {
    0 <= i < |metas| && metas[i].id == dropId && forall j :: 0 <= j < i ==> metas[j].id != dropId
  }

  /** `metas.find(m => m.id === dropId)?.title`: the title of the first page with the target's
      identifier, or `undefined` (None) when no page has it. */
  function TargetTitle(metas: seq<PageMeta>, dropId: string): (r: Option<string>)
    ensures r.None? <==> forall i :: 0 <= i < |metas| ==> metas[i].id != dropId
    ensures r.Some? ==> exists i :: IsTarget(metas, dropId, i) && metas[i].title == r.value
  {
    var found := Find(metas, (m: PageMeta) => m.id == dropId);
    if found.None? then None else Some(found.value.title)
  }

  /** How a template literal prints a possibly undefined string: a string as itself,
      `undefined` as the word "undefined". */
  function TemplateText(t: Option<string>): (r: string)
    ensures t.Some? ==> r == t.value
    ensures t.None? ==> r == "undefined"
  {
    if t.Some? then t.value else "undefined"
  }

  /** The toast text `Moved "<current title>" to "<target title>"`: the fixed words and
      quotes, with the current title and then the printed target title in their places. */
  function MoveMessage(currentTitle: string, targetTitle: Option<string>): (r: string)
    ensures var n, t := |currentTitle|, TemplateText(targetTitle);
      |r| == n + |t| + 14 &&
      r[..7] == "Moved \"" &&
      r[7..7 + n] == currentTitle &&
      r[7 + n..13 + n] == "\" to \"" &&
      r[13 + n..13 + n + |t|] == t &&
      r[13 + n + |t|..] == "\""
  {
    "Moved \"" + currentTitle + "\" to \"" + TemplateText(targetTitle) + "\""
  }

  /** The toast names the moved page and the target, or `undefined` for a target that is not
      among the candidates. */
  lemma MoveMessageNamesBothPages(currentTitle: string, targetTitle: Option<string>)
    ensures Includes(MoveMessage(currentTitle, targetTitle), currentTitle)
    ensures targetTitle.Some? ==> Includes(MoveMessage(currentTitle, targetTitle), targetTitle.value)
    ensures targetTitle.None? ==> Includes(MoveMessage(currentTitle, targetTitle), "undefined")
  {
    var msg := MoveMessage(currentTitle, targetTitle);
    var tail := "\" to \"" + TemplateText(targetTitle) + "\"";
    assert msg == "Moved \"" + currentTitle + tail;
    IncludesInfix("Moved \"", currentTitle, tail);
    var head := "Moved \"" + currentTitle + "\" to \"";
    assert msg == head + TemplateText(targetTitle) + "\"";
    IncludesInfix(head, TemplateText(targetTitle), "\"");
  }

  /** The calls `handleClick(dropId)` makes, in order. */
  function DispatchEffects(metas: seq<PageMeta>, current: PageMeta, hasPinboardClick: bool, dropId: string): (e: seq<Effect>)
    // the move comes first, always, whether or not dropId names a candidate
    ensures |e| == (if hasPinboardClick then 3 else 2)
    ensures e[0] == HandleDrop(current.id, dropId, ContainmentDrop)
    ensures forall i :: 0 < i < |e| ==> !e[i].HandleDrop?
    // the observer hears of the move only when it is present, and right after it
    ensures hasPinboardClick ==> e[1] == PinboardClick(current.id, dropId)
    ensures !hasPinboardClick ==> forall i :: 0 <= i < |e| ==> !e[i].PinboardClick?
    // exactly one toast, last, with the text `Moved "<current title>" to "<target title>"`
    ensures e[|e| - 1] == Toast(MoveMessage(current.title, TargetTitle(metas, dropId)))
    ensures forall i :: 0 <= i < |e| - 1 ==> !e[i].Toast?
    ensures Includes(e[|e| - 1].message, current.title)
    ensures TargetTitle(metas, dropId).Some? ==> Includes(e[|e| - 1].message, TargetTitle(metas, dropId).value)
  {
    var targetTitle := TargetTitle(metas, dropId);
    var drop := HandleDrop(current.id, dropId, ContainmentDrop);
    var toast := Toast(MoveMessage(current.title, targetTitle));
    MoveMessageNamesBothPages(current.title, targetTitle);
    if hasPinboardClick then [drop, PinboardClick(current.id, dropId), toast] else [drop, toast]
  }

  /** Clicking "Alpha" (id "a") while "Beta" (id "b") is open, with an observer present. */
  lemma DispatchScenario()
    ensures var alpha := PageMeta("a", "Alpha", false, ["b"]);
      var beta := PageMeta("b", "Beta", false, []);
      DispatchEffects([alpha, beta], beta, true, "a") ==
        [HandleDrop("b", "a", DropPosition(false, false, true)),
         PinboardClick("b", "a"),
         Toast("Moved \"Beta\" to \"Alpha\"")]
  {
    var alpha := PageMeta("a", "Alpha", false, ["b"]);
    var beta := PageMeta("b", "Beta", false, []);
    assert TargetTitle([alpha, beta], "a") == Some("Alpha");
    assert MoveMessage("Beta", Some("Alpha")) == "Moved \"Beta\" to \"Alpha\"";
  }
}
