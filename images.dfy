/** The attribute pass of `initImages` (script.js:207-236). */
module Images {
  import opened Dom

  /** Whether the pass asks the browser to load this image lazily: it has no
      `loading` attribute of its own, is not marked `data-critical` and is
      not the logo (script.js:220-224). */
  predicate GetsLazy(e: Element) {
    !HasAttr(e, "loading") && !HasAttr(e, "data-critical") && !HasClass(e, "c-logo__img")
  }

  /** One iteration of the loop (script.js:214-226). Every image ends up with
      `img-fluid`; `loading` becomes `lazy` exactly for `GetsLazy` images; an
      existing `loading` value, every other class and every other attribute
      are kept. */
  function NormaliseImage(e: Element): (r: Element)
    ensures r.classes == e.classes + {"img-fluid"}
    ensures HasAttr(r, "loading") <==> HasAttr(e, "loading") || GetsLazy(e)
    ensures GetsLazy(e) ==> GetAttr(r, "loading") == Some("lazy")
    ensures HasAttr(e, "loading") ==> GetAttr(r, "loading") == GetAttr(e, "loading")
    ensures forall a :: a != "loading" ==> GetAttr(r, a) == GetAttr(e, a)
  {
    var withClass := if !HasClass(e, "img-fluid") then AddClass(e, "img-fluid") else e;
    var hasLoading := HasAttr(withClass, "loading");
    var isCritical := HasAttr(withClass, "data-critical");
    var isLogo := HasClass(withClass, "c-logo__img");
    if !hasLoading && !isCritical && !isLogo then SetAttr(withClass, "loading", "lazy") else withClass
  }

  /** A normalised image is left alone by a second pass. */
  lemma NormaliseIdempotent(e: Element)
    ensures NormaliseImage(NormaliseImage(e)) == NormaliseImage(e)
  {
    var r := NormaliseImage(e);
    assert HasAttr(r, "loading") || !GetsLazy(r);
    assert !GetsLazy(r);
    assert r.classes + {"img-fluid"} == r.classes;
  }

  /** The loop over `document.querySelectorAll('img')`, in place. */
  method InitImages(images: array<Element>)
    modifies images
    ensures forall i :: 0 <= i < images.Length ==> images[i] == NormaliseImage(old(images[i]))
  {
    var i := 0;
    while i < images.Length
      invariant 0 <= i <= images.Length
      invariant forall j :: 0 <= j < i ==> images[j] == NormaliseImage(old(images[j]))
      invariant forall j :: i <= j < images.Length ==> images[j] == old(images[j])
    {
      var img := images[i];
      if !HasClass(img, "img-fluid") {
        img := AddClass(img, "img-fluid");
      }
      var hasLoading := HasAttr(img, "loading");
      var isCritical := HasAttr(img, "data-critical");
      var isLogo := HasClass(img, "c-logo__img");
      if !hasLoading && !isCritical && !isLogo {
        img := SetAttr(img, "loading", "lazy");
      }
      images[i] := img;
      i := i + 1;
    }
  }
}
