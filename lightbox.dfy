/** The lightbox controller as the page runs it: one object whose fields are
    the closure variables and the presentation surfaces, updated in place by
    one method per handler. Each method is proved to perform a transition of
    `Viewer` (the one of the same name; `FireNextSwap` performs `FireSwap` and
    `CloseModal` performs `Close`), where the properties of those transitions
    are proved. */
module Controller {
  import opened Gallery
  import opened Ring
  import Viewer

  class Lightbox {
    /** The gallery and the optional elements found in the modal. */
    const page: Viewer.Page

    var currentIndex: int
    var visible: bool
    var pointerDown: bool
    var startX: int
    var lastTranslate: int
    var offset: int
    var transitionOff: bool
    var imageSrc: string
    var imageAlt: string
    var captionText: string
    var fading: bool
    var pipSrc: string
    var pip: Viewer.PipDisplay
    var pending: seq<Item>
    var preloads: seq<string>

    /** The controller's state as a value. */
    function Current(): Viewer.View
      reads this
    {
      Viewer.View(currentIndex, visible, pointerDown, startX, lastTranslate, offset, transitionOff,
                  imageSrc, imageAlt, captionText, fading, pipSrc, pip, pending, preloads)
    }

    /** What the navigation methods need: a gallery, nothing scheduled
        without an image element, and only non-empty sources requested. It
        holds between the statements of a release too. */
    ghost predicate Ready()
      reads this
    {
      Viewer.Ok(page) && Viewer.ImageGuard(page, Current()) && Viewer.PreloadsNonEmpty(Current())
    }

    /** The object invariant, kept by every handler. */
    ghost predicate Valid()
      reads this
    {
      Ready() && Viewer.DragNeutral(Current())
    }

    /** Scans the page's gallery nodes; the controller exists only when there is
        at least one. It starts closed, with nothing shown and no drag. */
    constructor (nodes: seq<Node>, hasImage: bool, hasCaption: bool, hasPip: bool, hasPipImage: bool)
      requires |nodes| > 0
      ensures Valid()
      ensures page == Viewer.Page(BuildGallery(nodes), hasImage, hasCaption, hasPip, hasPipImage)
      ensures Current() == Viewer.Initial
    {
      page := Viewer.Page(BuildGallery(nodes), hasImage, hasCaption, hasPip, hasPipImage);
      currentIndex := -1;
      visible := false;
      pointerDown := false;
      startX := 0;
      lastTranslate := 0;
      offset := 0;
      transitionOff := false;
      imageSrc := "";
      imageAlt := "";
      captionText := "";
      fading := false;
      pipSrc := "";
      pip := Viewer.Unstyled;
      pending := [];
      preloads := [];
    }

    method Preload(src: string)
      modifies this
      ensures Current() == Viewer.Preload(old(Current()), src)
    {
      if src == "" {
        return;
      }
      preloads := preloads + [src];
    }

    method UpdatePip(index: int)
      requires Viewer.Ok(page) && 0 <= index < |page.gallery|
      modifies this
      ensures Current() == Viewer.UpdatePip(page, old(Current()), index)
    {
      if !page.hasPipImage {
        return;
      }
      var nextIndex := NextIndex(index, |page.gallery|);
      pipSrc := page.gallery[nextIndex].src;
    }

    method Paint(item: Item)
      modifies this
      ensures Current() == Viewer.Paint(page, old(Current()), item)
    {
      imageSrc := item.src;
      imageAlt := AltText(item);
      if page.hasCaption {
        captionText := CaptionText(item);
      }
    }

    method SetImage(index: int, instant: bool)
      requires Ready()
      modifies this
      ensures Ready()
      ensures Current() == Viewer.SetImage(page, old(Current()), index, instant)
    {
      if index < 0 || index >= |page.gallery| {
        return;
      }
      if !page.hasImage {
        return;
      }
      var item := page.gallery[index];
      if !instant {
        fading := true;
        pending := pending + [item];
      } else {
        Paint(item);
      }
      UpdatePip(index);
      Preload(page.gallery[NextIndex(index, |page.gallery|)].src);
      Preload(page.gallery[PrevIndex(index, |page.gallery|)].src);
    }

    /** The oldest scheduled swap fires (timers of equal delay fire in the order
        they were set). */
    method FireNextSwap()
      requires Valid() && pending != []
      modifies this
      ensures Valid()
      ensures Current() == Viewer.FireSwap(page, old(Current()))
      ensures Viewer.Shows(page, Current(), old(pending[0])) && pending == old(pending[1..])
    {
      Paint(pending[0]);
      fading := false;
      pending := pending[1..];
    }

    method OpenAt(index: int)
      requires Valid()
      modifies this
      ensures Valid()
      ensures Current() == Viewer.OpenAt(page, old(Current()), index)
      ensures currentIndex == index && visible
    {
      currentIndex := index;
      visible := true;
      SetImage(index, true);
      if page.hasPip {
        pip := Viewer.Block;
      }
    }

    method CloseModal()
      requires Valid()
      modifies this
      ensures Valid()
      ensures Current() == Viewer.Close(page, old(Current()))
      ensures currentIndex == -1 && !visible
    {
      visible := false;
      if page.hasImage {
        imageSrc := "";
        imageAlt := "";
      }
      if page.hasCaption {
        captionText := "";
      }
      if page.hasPip {
        pip := Viewer.NoDisplay;
      }
      currentIndex := -1;
    }

    method ShowNext()
      requires Ready()
      modifies this
      ensures Ready()
      ensures Current() == Viewer.ShowNext(page, old(Current()))
    {
      if |page.gallery| <= 1 {
        return;
      }
      currentIndex := NextIndex(currentIndex, |page.gallery|);
      SetImage(currentIndex, false);
    }

    method ShowPrev()
      requires Ready()
      modifies this
      ensures Ready()
      ensures Current() == Viewer.ShowPrev(page, old(Current()))
    {
      if |page.gallery| <= 1 {
        return;
      }
      currentIndex := PrevIndex(currentIndex, |page.gallery|);
      SetImage(currentIndex, false);
    }

    method KeyDown(key: string)
      requires Valid()
      modifies this
      ensures Valid()
      ensures Current() == Viewer.KeyDown(page, old(Current()), key)
    {
      if !visible {
        return;
      }
      if key == "Escape" {
        CloseModal();
      } else if key == "ArrowRight" {
        ShowNext();
      } else if key == "ArrowLeft" {
        ShowPrev();
      }
    }

    method PointerDown(clientX: int)
      requires Valid() && page.hasImage
      modifies this
      ensures Valid()
      ensures Current() == Viewer.PointerDown(page, old(Current()), clientX)
    {
      pointerDown := true;
      startX := clientX;
      lastTranslate := 0;
    }

    method PointerMove(clientX: int)
      requires Valid() && page.hasImage
      modifies this
      ensures Valid()
      ensures Current() == Viewer.PointerMove(page, old(Current()), clientX)
    {
      if !pointerDown {
        return;
      }
      var dx := clientX - startX;
      lastTranslate := dx;
      offset := dx;
      transitionOff := true;
    }

    /** `onPointerUp`, installed for `pointerup` and `pointercancel`. */
    method PointerUp()
      requires Valid() && page.hasImage
      modifies this
      ensures Valid()
      ensures Current() == Viewer.PointerUp(page, old(Current()))
      ensures !pointerDown && lastTranslate == 0
    {
      if !pointerDown {
        return;
      }
      pointerDown := false;
      transitionOff := false;
      offset := 0;
      ghost var released := Current();
      assert released == old(Current()).(pointerDown := false, transitionOff := false, offset := 0);
      if lastTranslate <= -Viewer.DragThreshold {
        ShowNext();
        assert Current() == Viewer.Go(page, released, Viewer.GoNext);
      } else if lastTranslate >= Viewer.DragThreshold {
        ShowPrev();
        assert Current() == Viewer.Go(page, released, Viewer.GoPrev);
      }
      ghost var moved := Current();
      assert moved == Viewer.Go(page, released, Viewer.Release(released.lastTranslate));
      lastTranslate := 0;
      assert Current() == moved.(lastTranslate := 0);
    }

    method PointerLeave()
      requires Valid() && page.hasImage
      modifies this
      ensures Valid()
      ensures Current() == Viewer.PointerLeave(page, old(Current()))
    {
      if pointerDown {
        PointerUp();
      }
    }
  }
}
