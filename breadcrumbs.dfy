// The breadcrumb trail every administration page can set: one list item
// per (text, url) pair, the last one marked as the current page and the
// others linking to their url. Item text and url are written into the
// markup as given, without HTML encoding.
module Breadcrumbs {
  import opened Seqs

  datatype Crumb = Crumb(text: string, url: Option<string>)

  const LiOpen := "<li"
  const ActiveAttrs := " class=\"breadcrumb-item active\" aria-current=\"page\">"
  const LinkAttrs := " class=\"breadcrumb-item\">"
  const AnchorOpen := "<a href=\""
  const AnchorMid := "\">"
  const AnchorClose := "</a>"
  const LiClose := "</li>"

  /** String interpolation writes a null url as nothing. */
  function UrlText(url: Option<string>): string
  {
    if url.Some? then url.value else ""
  }

  /** The current page: marked active, no link. */
  function ActiveItem(text: string): string
  {
    LiOpen + ActiveAttrs + text + LiClose
  }

  /** Any earlier page: an anchor to its url. */
  function LinkItem(c: Crumb): string
  {
    LiOpen + LinkAttrs + AnchorOpen + UrlText(c.url) + AnchorMid + c.text + AnchorClose + LiClose
  }

  /** The markup the loop appends for item `i`. */
  function ItemHtml(items: seq<Crumb>, i: nat): string
    requires i < |items|
  {
    if i == |items| - 1 then ActiveItem(items[i].text) else LinkItem(items[i])
  }

  /** The markup after the loop has handled the first `n` items. */
  function RenderedPrefix(items: seq<Crumb>, n: nat): string
    requires n <= |items|
  {
    if n == 0 then "" else RenderedPrefix(items, n - 1) + ItemHtml(items, n - 1)
  }

  function Rendered(items: seq<Crumb>): string
  {
    RenderedPrefix(items, |items|)
  }

  /** The part of the page model that holds the breadcrumb view data. */
  class AdminPage {
    /** `ViewData["Breadcrumb"]`, absent until set. */
    var breadcrumb: Option<string>

    constructor ()
      ensures breadcrumb.None?
    {
      breadcrumb := None;
    }

    /** `SetBreadcrumb`: appends one list item per crumb, then stores the markup. */
    method SetBreadcrumb(items: seq<Crumb>)
      modifies this
      ensures breadcrumb == Some(Rendered(items))
    {
      var html := "";
      var i := 0;
      while i < |items|
        invariant 0 <= i <= |items|
        invariant html == RenderedPrefix(items, i)
      {
        var item := items[i];
        ghost var next := RenderedPrefix(items, i + 1);
        assert next == html + ItemHtml(items, i);
        if i == |items| - 1 {
          html := html + ActiveItem(item.text);
        } else {
          html := html + LinkItem(item);
        }
        assert html == next;
        i := i + 1;
      }
      breadcrumb := Some(html);
    }
  }

  // ---------------------------------------------------------------------------
  // Shape: the earlier items as links, then the current page.

  /** The earlier items' anchors, first to last. */
  function Links(s: seq<Crumb>): string
  {
    if s == [] then "" else Links(s[..|s| - 1]) + LinkItem(s[|s| - 1])
  }

  lemma {:induction false} PrefixIsLinks(items: seq<Crumb>, n: nat)
    requires n < |items|
    ensures RenderedPrefix(items, n) == Links(items[..n])
  {
    if n > 0 {
      PrefixIsLinks(items, n - 1);
      LinksStep(items, n);
    }
  }

  /** One more item adds its anchor at the end. */
  lemma LinksStep(items: seq<Crumb>, n: nat)
    requires 0 < n <= |items|
    ensures Links(items[..n]) == Links(items[..n - 1]) + LinkItem(items[n - 1])
  {
    assert items[..n][..n - 1] == items[..n - 1];
  }

  /**
   * No items give the empty string; otherwise the markup is every item but
   * the last as an anchor to its url, in input order, followed by the last
   * item marked as the current page.
   */
  lemma RenderedShape(items: seq<Crumb>)
    ensures items == [] ==> Rendered(items) == ""
    ensures items != [] ==>
      Rendered(items) == Links(items[..|items| - 1]) + ActiveItem(items[|items| - 1].text)
  {
    if items != [] {
      PrefixIsLinks(items, |items| - 1);
    }
  }
}
