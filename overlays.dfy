/**
 * makeLabelOverlay and its module-level memo `_overlayCache`: one overlay class
 * per label text, reused until a store mutation clears the memo.
 */
module Overlays {

  /**
   * The overlay class makeLabelOverlay creates: a subclass of NVDAObject whose
   * `name` attribute is the label text. Object identity stands for class identity.
   */
  class Overlay {
    const name: string

    constructor (name: string)
      ensures this.name == name
    {
      this.name := name;
    }
  }

  /** `_overlayCache`: label text to the overlay class made for it. */
  class OverlayCache {
    var entries: map<string, Overlay>

    /** Every cached overlay carries the text it is cached under. */
    ghost predicate Valid()
      reads this
    {
      forall t | t in entries :: entries[t].name == t
    }

    constructor ()
      ensures Valid() && entries == map[]
    {
      entries := map[];
    }

    /** makeLabelOverlay: the cached overlay for `labelText`, or a new one, cached. */
    method MakeLabelOverlay(labelText: string) returns (overlay: Overlay)
      requires Valid()
      modifies this
      ensures Valid()
      ensures overlay.name == labelText
      ensures labelText in old(entries) ==> overlay == old(entries)[labelText] && entries == old(entries)
      ensures labelText !in old(entries) ==> fresh(overlay) && entries == old(entries)[labelText := overlay]
    {
      if labelText in entries {
        return entries[labelText];
      }
      overlay := new Overlay(labelText);
      entries := entries[labelText := overlay];
    }

    /** `_overlayCache.clear()`. */
    method Clear()
      modifies this
      ensures Valid() && entries == map[]
    {
      entries := map[];
    }
  }

  /**
   * Asking twice for one text gives the same overlay class; after the memo is
   * cleared the text gets a new one.
   */
  method SameTextSameOverlay(cache: OverlayCache, labelText: string) returns (first: Overlay, second: Overlay, afterClear: Overlay)
    requires cache.Valid()
    modifies cache
    ensures first == second && first.name == labelText
    ensures afterClear != first && afterClear.name == labelText
  {
    first := cache.MakeLabelOverlay(labelText);
    second := cache.MakeLabelOverlay(labelText);
    cache.Clear();
    afterClear := cache.MakeLabelOverlay(labelText);
  }
}
