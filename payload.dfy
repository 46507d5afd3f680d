/**
 * The objects the outline tree and the navigation code carry around:
 * repository, SDK, book and heading resources and the navigatable that
 * points at one of them or at a URI. Their own sources
 * (manuals-repository.c, manuals-sdk.c, manuals-book.c, manuals-heading.c,
 * manuals-navigatable.c) are not part of this model; only the fields the
 * modelled code reads are kept.
 */
module Payload {
  import opened Wrappers

  /** The GType of a payload object. */
  datatype ItemType = RepositoryType | SdkType | BookType | HeadingType | OtherType(name: string)

  /**
   * A payload object. `handle` stands for the object's address, so two
   * distinct objects are never equal even when all their properties agree.
   */
  datatype Item = Item(handle: nat, kind: ItemType, id: int, title: string, iconName: Option<string>)

  /** ManualsNavigatable: an optional resource item and an optional URI. */
  datatype Navigatable = Navigatable(item: Option<Item>, uri: Option<string>)

  /**
   * manuals_navigatable_new_for_resource; the URI it derives from the
   * resource is not modelled and left unset.
   */
  function NavigatableFor(item: Item): (nav: Navigatable)
    ensures nav.item == Some(item)
  {
    Navigatable(Some(item), None)
  }
}
