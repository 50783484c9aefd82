/** The `PinboardMenu` component as an object: its props are fixed when it is created, the
    search query is its one piece of local state, and every call it makes to a collaborator
    (the move handler, the optional observer, the toast, the page-metadata store) is
    appended to `trace`. */
module Menu {
  import opened JsBuiltins
  import opened Pinboard
  import Search
  import Dispatch
  import Removal

  class PinboardMenu {
    const metas: seq<PageMeta>
    const currentMeta: PageMeta
    const showRemovePinboard: bool
    /** Whether the caller passed an `onPinboardClick` callback. */
    const hasPinboardClick: bool

    var query: string
    /** The collaborator calls made so far, oldest first. */
    var trace: seq<Effect>

    /** A freshly mounted menu: empty query, no calls made. */
    constructor (metas: seq<PageMeta>, currentMeta: PageMeta, showRemovePinboard: bool, hasPinboardClick: bool)
      ensures this.metas == metas && this.currentMeta == currentMeta
      ensures this.showRemovePinboard == showRemovePinboard && this.hasPinboardClick == hasPinboardClick
      ensures query == "" && trace == []
    {
      this.metas := metas;
      this.currentMeta := currentMeta;
      this.showRemovePinboard := showRemovePinboard;
      this.hasPinboardClick := hasPinboardClick;
      query := "";
      trace := [];
    }

    /** Typing in the search box replaces the query and calls nobody. */
    method SetQuery(q: string)
      modifies this`query
      ensures query == q
    {
      query := q;
    }

    /** What the menu shows for the current query. */
    function View(): (c: Search.MenuContent)
      reads this
      ensures c.SearchList? <==> |query| > 0
      ensures c.SearchList? ==> forall m :: m in c.results <==> m in metas && Search.Matches(m, query)
      ensures c.SearchList? ==> c.results == Search.SearchResult(metas, query)
    {
      Search.Content(metas, query)
    }

    /** `handleClick(dropId)`: move, notify the observer if there is one, then toast. */
    method HandleClick(dropId: string)
      modifies this`trace
      ensures trace == old(trace) + Dispatch.DispatchEffects(metas, currentMeta, hasPinboardClick, dropId)
    {
      var targetTitle := Dispatch.TargetTitle(metas, dropId);
      trace := trace + [HandleDrop(currentMeta.id, dropId, ContainmentDrop)];
      if hasPinboardClick {
        trace := trace + [PinboardClick(currentMeta.id, dropId)];
      }
      trace := trace + [Toast(Dispatch.MoveMessage(currentMeta.title, targetTitle))];
    }

    /** The "Remove from Pinboard" button, which exists only when `showRemovePinboard` is set:
        find the parent, copy its child list into a fresh array, find and splice out the
        current page's identifier, and hand the new list to `setPageMeta`. */
    method RemoveFromPinboard()
      requires showRemovePinboard
      modifies this`trace
      ensures trace == old(trace) + Removal.RemovalEffects(metas, currentMeta.id)
    {
      var parentMeta := Removal.FindParent(metas, currentMeta.id);
      if parentMeta.None? {
        return;
      }
      var parent := parentMeta.value;
      var newSubpageIds := Removal.RemoveFirstInCopy(parent.subpageIds, currentMeta.id);
      trace := trace + [SetPageMeta(parent.id, newSubpageIds)];
    }
  }
}
