/** The decision part of `initSmoothScroll` (script.js:114-158): split the
    clicked link's href at its first `#` and take over the click only for a
    fragment of the current page. */
module SmoothScroll {
  import opened Dom
  import opened JsString

  /** An href split into the part before the first `#` and the fragment. */
  datatype Split = Split(path: string, hash: string)

  /** The hrefs the handler gives up on at once (script.js:127). */
  predicate Ignored(href: Option<string>) {
    href.None? || href.value == "" || href.value == "#" || href.value == "#!"
  }

  /** script.js:126-133: None when the handler returns early; otherwise the
      path and the fragment, which starts at the first `#`. */
  function SplitHref(href: Option<string>): (r: Option<Split>)
    ensures r.Some? <==> !Ignored(href) && exists i :: 0 <= i < |href.value| && href.value[i] == '#'
    ensures r.Some? ==> r.value.path + r.value.hash == href.value
    ensures r.Some? ==> |r.value.hash| > 0 && r.value.hash[0] == '#'
    ensures r.Some? ==> forall i :: 0 <= i < |r.value.path| ==> r.value.path[i] != '#'
  {
    if Ignored(href) then None
    else match IndexOf(href.value, '#')
      case None => None
      case Some(k) => Some(Split(href.value[..k], href.value[k..]))
  }

  /** The split is the only one with a `#`-free path and a fragment that
      starts with `#`. */
  lemma SplitHrefUnique(href: string, path: string, hash: string)
    requires href != "#" && href != "#!"
    requires path + hash == href && |hash| > 0 && hash[0] == '#'
    requires forall i :: 0 <= i < |path| ==> path[i] != '#'
    ensures SplitHref(Some(href)) == Some(Split(path, hash))
  {
    assert href[|path|] == '#';
    var k := IndexOf(href, '#').value;
    assert forall i :: 0 <= i < |path| ==> href[i] == path[i];
    assert k == |path|;
    assert href[..k] == path;
    assert href[k..] == hash;
  }

  /** script.js:135-138. `currentIsIndexFile` is whether the current path
      matches the index-file pattern of line 137 (a path ending in
      `/index.htm` or `/index.html`, in any letter case). */
  predicate IsSamePage(path: string, currentPath: string, currentIsIndexFile: bool) {
    || path == ""
    || path == currentPath
    || (path == "/" && currentIsIndexFile)
    || (path == "/index.html" && currentPath == "/")
  }

  /** The whole click decision: Some(hash) when the handler prevents the
      default, scrolls to the fragment's element and pushes the fragment onto
      the history; None when the browser's default navigation goes ahead.
      `hasTarget` says for which selectors `querySelector` finds an element. */
  function AnchorClick(href: Option<string>, currentPath: string, currentIsIndexFile: bool,
                       hasTarget: string -> bool): (r: Option<string>)
    ensures r.Some? <==>
      && SplitHref(href).Some?
      && IsSamePage(SplitHref(href).value.path, currentPath, currentIsIndexFile)
      && hasTarget(SplitHref(href).value.hash)
    ensures r.Some? ==> |r.value| > 0 && r.value[0] == '#' && r.value == SplitHref(href).value.hash
  {
    match SplitHref(href)
    case None => None
    case Some(Split(path, hash)) =>
      if IsSamePage(path, currentPath, currentIsIndexFile) && hasTarget(hash) then Some(hash) else None
  }

  /** A link that is only a fragment (`#about`) is taken over on every page
      where its target exists. */
  lemma FragmentOnlyLinkIsSamePage(hash: string, currentPath: string, currentIsIndexFile: bool,
                                   hasTarget: string -> bool)
    requires |hash| > 1 && hash[0] == '#' && hash != "#!" && hasTarget(hash)
    ensures AnchorClick(Some(hash), currentPath, currentIsIndexFile, hasTarget) == Some(hash)
  {
    SplitHrefUnique(hash, "", hash);
  }

  /** A link with no `#` never leaves the default navigation. */
  lemma NoFragmentNotTaken(href: string, currentPath: string, currentIsIndexFile: bool,
                           hasTarget: string -> bool)
    requires forall i :: 0 <= i < |href| ==> href[i] != '#'
    ensures AnchorClick(Some(href), currentPath, currentIsIndexFile, hasTarget) == None
  {
  }
}
