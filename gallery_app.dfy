/** The `app/` gallery viewer: fetches a recipe, then pages of images of 50,
    requesting the next page when the window is scrolled within 300 pixels
    of the bottom. */
module AppGallery {
  import opened JsString
  import opened Paging
  import opened Wrappers
  import Geometry

  const ImgPath := "/asset"
  const Margin := 300
  const PageSize := 50

  datatype Box = Box(w: int, h: int)

  /** `boxFit`: scale the image uniformly to fit `maxw` by `maxh`, rounding
      each side down. */
  function BoxFit(iw: real, ih: real, maxw: real, maxh: real): Box
    requires iw > 0.0 && ih > 0.0
  {
    var scale := Geometry.Min(maxw / iw, maxh / ih);
    Box((iw * scale).Floor, (ih * scale).Floor)
  }

  /** The uniform scale makes one side exactly its limit and keeps the other
      within its own. */
  lemma BoxScale(iw: real, ih: real, maxw: real, maxh: real, s: real)
    requires iw > 0.0 && ih > 0.0 && maxw >= 0.0 && maxh >= 0.0
    requires s == Geometry.Min(maxw / iw, maxh / ih)
    ensures 0.0 <= iw * s <= maxw && 0.0 <= ih * s <= maxh
    ensures iw * s == maxw || ih * s == maxh
  {
    assert iw * (maxw / iw) == maxw;
    assert ih * (maxh / ih) == maxh;
    assert s >= 0.0;
    if maxw / iw <= maxh / ih {
      assert ih * s <= ih * (maxh / ih);
    } else {
      assert iw * s <= iw * (maxw / iw);
    }
  }

  /** For a positive image and a non-negative box, the fitted size is a pair
      of non-negative integers inside the box, and one side is the box's own
      side rounded down. */
  lemma BoxFitWithin(iw: real, ih: real, maxw: real, maxh: real)
    requires iw > 0.0 && ih > 0.0 && maxw >= 0.0 && maxh >= 0.0
    ensures var b := BoxFit(iw, ih, maxw, maxh);
      && 0 <= b.w && b.w as real <= maxw
      && 0 <= b.h && b.h as real <= maxh
      && (b.w == maxw.Floor || b.h == maxh.Floor)
  {
    var s := Geometry.Min(maxw / iw, maxh / ih);
    BoxScale(iw, ih, maxw, maxh, s);
  }

  /** `imageURL`: a missing (falsy) variant or `'full'` names the full-size
      asset; any other variant names that variant's directory. */
  function ImageURL(hash: string, variant: Value): string
  {
    if !Truthy(variant) || variant == Str("full") then ImgPath + "/" + hash + ".jpg"
    else ImgPath + "/var/" + ToStr(variant) + "/" + hash + ".jpg"
  }

  /** Read back by segments: `/asset/<hash>.jpg` for the full image,
      `/asset/var/<variant>/<hash>.jpg` for any other variant. */
  lemma ImageURLSegments(hash: string, variant: Value)
    requires '/' !in hash && '/' !in ToStr(variant)
    ensures !Truthy(variant) || variant == Str("full") ==>
      Split(ImageURL(hash, variant), '/') == ["", "asset", hash + ".jpg"]
    ensures Truthy(variant) && variant != Str("full") ==>
      Split(ImageURL(hash, variant), '/') == ["", "asset", "var", ToStr(variant), hash + ".jpg"]
  {
    var file := hash + ".jpg";
    assert '/' !in file by {
      assert forall i :: 0 <= i < |hash| ==> file[i] == hash[i];
    }
    if !Truthy(variant) || variant == Str("full") {
      assert ImageURL(hash, variant) == ImgPath + "/" + file;
      FullSegments(file);
    } else {
      assert ImageURL(hash, variant) == ImgPath + "/var/" + ToStr(variant) + "/" + file;
      VariantSegments(ToStr(variant), file);
    }
  }

  lemma FullSegments(file: string)
    requires '/' !in file
    ensures Split(ImgPath + "/" + file, '/') == ["", "asset", file]
  {
    SplitThree("", "asset", file, '/');
    assert ImgPath + "/" + file == "" + "/" + "asset" + "/" + file;
  }

  lemma VariantSegments(v: string, file: string)
    requires '/' !in v && '/' !in file
    ensures Split(ImgPath + "/var/" + v + "/" + file, '/') == ["", "asset", "var", v, file]
  {
    SplitFive("", "asset", "var", v, file, '/');
    assert ImgPath + "/var/" + v + "/" + file == "" + "/" + "asset" + "/" + "var" + "/" + v + "/" + file;
  }

  /** The page request of `loadNext`: `/data/page/<page>/<current>`. */
  function PageURL(page: nat, current: nat): string
  {
    "/data/page/" + NatToString(page) + "/" + NatToString(current)
  }

  lemma PageURLSegments(page: nat, current: nat)
    ensures Split(PageURL(page, current), '/')
      == ["", "data", "page", NatToString(page), NatToString(current)]
  {
    var p, c := NatToString(page), NatToString(current);
    NoSlashInNumber(page);
    NoSlashInNumber(current);
    SplitFive("", "data", "page", p, c, '/');
    PagePathForm(p, c);
  }

  lemma PagePathForm(p: string, c: string)
    ensures "/data/page/" + p + "/" + c == "" + "/" + "data" + "/" + "page" + "/" + p + "/" + c
  {
    assert "" + "/" + "data" + "/" + "page" + "/" == "/data/page/";
  }

  datatype Image = Image(hash: string)

  function SliceURLs(imgs: seq<Image>): (r: seq<string>)
    ensures |r| == |imgs| && forall i :: 0 <= i < |imgs| ==> r[i] == ImageURL(imgs[i].hash, Str("slice"))
  {
    if |imgs| == 0 then [] else SliceURLs(imgs[..|imgs| - 1]) + [ImageURL(imgs[|imgs| - 1].hash, Str("slice"))]
  }

  /** The closure state of the viewer. `requests` are the page URLs asked
      for, in order; `content` are the `src` attributes of the appended
      images. */
  class Gallery {
    var state: Phase
    var current: nat
    var recipe: Option<Value>
    var requests: seq<string>
    var content: seq<string>
    ghost var pending: nat

    ghost function View(): Pager
      reads this
    {
      Pager(state, current, pending)
    }

    constructor ()
      ensures View() == Initial && recipe == None
      ensures requests == [] && content == []
    {
      state := Idle;
      current := 0;
      recipe := None;
      requests := [];
      content := [];
      pending := 0;
    }

    /** `loadNext`: mark the viewer loading and request the page at `current`. */
    method LoadNext()
      modifies this
      ensures View() == Step(old(View()), PageSize, Load)
      ensures requests == old(requests) + [PageURL(PageSize, old(current))]
      ensures content == old(content) && recipe == old(recipe)
    {
      state := Loading;
      requests := requests + [PageURL(PageSize, current)];
      pending := pending + 1;
    }

    /** The recipe reply: keep the recipe and load the first page,
      whatever the state. */
    method OnRecipe(r: Value)
      modifies this
      ensures View() == Step(old(View()), PageSize, Load)
      ensures requests == old(requests) + [PageURL(PageSize, old(current))]
      ensures content == old(content) && recipe == Some(r)
    {
      recipe := Some(r);
      LoadNext();
    }

    /** The scroll handler: load when near the bottom and idle. */
    method OnScroll(innerHeight: int, scrollY: int, bodyHeight: int)
      modifies this
      ensures var near := innerHeight + scrollY + Margin >= bodyHeight;
        && View() == Step(old(View()), PageSize, Scroll(near))
        && requests == old(requests)
            + (if Requests(old(View()), Scroll(near)) then [PageURL(PageSize, old(current))] else [])
      ensures content == old(content) && recipe == old(recipe)
    {
      if innerHeight + scrollY + Margin >= bodyHeight {
        if state == Idle {
          LoadNext();
        }
      }
    }

    /** `addImages`: append one slice image per entry. */
    method AddImages(imgs: seq<Image>)
      modifies this`content
      ensures content == old(content) + SliceURLs(imgs)
    {
      for i := 0 to |imgs|
        invariant content == old(content) + SliceURLs(imgs[..i])
      {
        assert imgs[..i + 1][..i] == imgs[..i];
        content := content + [ImageURL(imgs[i].hash, Str("slice"))];
      }
      assert imgs[..|imgs|] == imgs;
    }

    /** The page reply: a non-empty page is appended and `current` advances;
      an empty one ends the gallery. */
    method OnPage(imgs: seq<Image>)
      requires pending > 0
      modifies this
      ensures View() == Step(old(View()), PageSize, Reply(|imgs|))
      ensures content == old(content) + (if |imgs| > 0 then SliceURLs(imgs) else [])
      ensures requests == old(requests) && recipe == old(recipe)
    {
      if |imgs| > 0 {
        AddImages(imgs);
        current := current + PageSize;
        state := Idle;
      } else {
        state := Done;
      }
      pending := pending - 1;
    }
  }

  /** A scroll that arrives before the recipe already requests page 0, and
      the recipe then requests page 0 again: two requests for the same URL
      are in flight. */
  method ScrollBeforeRecipe(r: Value) returns (g: Gallery)
    ensures g.requests == [PageURL(PageSize, 0), PageURL(PageSize, 0)]
    ensures g.View() == Pager(Loading, 0, 2)
  {
    g := new Gallery();
    g.OnScroll(800, 0, 1000);
    g.OnRecipe(r);
  }
}
