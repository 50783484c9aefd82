/** The values the pinboard menu works with: page metadata, the drop intent it hands to the
    move handler, and the calls it makes to its collaborators, recorded as events. */
module Pinboard {

  /** One document of the workspace: its identifier, its title, whether it is in the trash,
      and the ordered identifiers of the pages pinned under it. */
  datatype PageMeta = PageMeta(id: string, title: string, trash: bool, subpageIds: seq<string>)

  /** Where a dragged page lands relative to the drop target. */
  datatype DropPosition = DropPosition(bottomLine: bool, topLine: bool, internal: bool)

  /** A containment drop: the dragged page becomes a child of the target, not a sibling
      placed above or below it. */
  const ContainmentDrop := DropPosition(false, false, true)

  /** A call the menu makes to code outside it. Only the arguments and the order of the calls
      are observable; what the collaborators do with them is not part of this model. */
  datatype Effect =
    | HandleDrop(dragId: string, dropId: string, position: DropPosition)
    | PinboardClick(dragId: string, dropId: string)
    | Toast(message: string)
    | SetPageMeta(pageId: string, subpageIds: seq<string>)
}
