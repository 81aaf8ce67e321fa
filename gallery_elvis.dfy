/** The `elvis/` gallery viewer: pages of 100 images requested through a
    data-source URL template, loaded within 1000 pixels of the bottom; every
    image is remembered by its slice URL so that a click can show its
    details, which are rendered against reference tables fetched
    separately. */
module ElvisGallery {
  import opened JsString
  import opened Paging
  import Markup
  import UrlArgs

  const Margin := 1000
  const PageSize := 100

  /** One rendition of an asset: its URL and pixel size. */
  datatype Variant = Variant(url: string, width: int, height: int)

  /** An asset as the data source sends it: three renditions (`var.slice`,
      `var.info`, `var.full`) and its other properties. */
  datatype Asset = Asset(slice: Variant, info: Variant, full: Variant, fields: map<string, Value>)

  /** The reference tables: for each table name, a map from id to value. */
  type Ref = map<string, map<string, Value>>

  // ---------------------------------------------------------------------------
  // asset_map

  /** `asset_map` after `asset_map[imgs[i].var.slice.url] = imgs[i]` for
      every `i` in order. */
  function PutAll(m: map<string, Asset>, imgs: seq<Asset>): map<string, Asset>
    decreases |imgs|
  {
    if |imgs| == 0 then m
    else PutAll(m, imgs[..|imgs| - 1])[imgs[|imgs| - 1].slice.url := imgs[|imgs| - 1]]
  }

  function Slices(imgs: seq<Asset>): (r: seq<Variant>)
    ensures |r| == |imgs| && forall i :: 0 <= i < |imgs| ==> r[i] == imgs[i].slice
  {
    if |imgs| == 0 then [] else Slices(imgs[..|imgs| - 1]) + [imgs[|imgs| - 1].slice]
  }

  /** The keys afterwards: the old ones and every slice URL. */
  lemma {:induction false} PutAllKeys(m: map<string, Asset>, imgs: seq<Asset>)
    ensures PutAll(m, imgs).Keys == m.Keys + set i | 0 <= i < |imgs| :: imgs[i].slice.url
    decreases |imgs|
  {
    if |imgs| > 0 {
      var init := imgs[..|imgs| - 1];
      PutAllKeys(m, init);
      var s := set i | 0 <= i < |imgs| :: imgs[i].slice.url;
      var t := set i | 0 <= i < |init| :: init[i].slice.url;
      assert s == t + {imgs[|imgs| - 1].slice.url} by {
        forall u | u in s ensures u in t + {imgs[|imgs| - 1].slice.url} {
          var i :| 0 <= i < |imgs| && imgs[i].slice.url == u;
          if i < |init| { assert init[i] == imgs[i]; }
        }
        forall u | u in t ensures u in s {
          var i :| 0 <= i < |init| && init[i].slice.url == u;
          assert imgs[i] == init[i];
        }
      }
    }
  }

  /** Each slice URL maps to the last image that has it. */
  lemma {:induction false} PutAllLastWins(m: map<string, Asset>, imgs: seq<Asset>, i: nat)
    requires i < |imgs|
    requires forall j :: i < j < |imgs| ==> imgs[j].slice.url != imgs[i].slice.url
    ensures imgs[i].slice.url in PutAll(m, imgs)
    ensures PutAll(m, imgs)[imgs[i].slice.url] == imgs[i]
    decreases |imgs|
  {
    if i < |imgs| - 1 {
      var init := imgs[..|imgs| - 1];
      assert init[i] == imgs[i];
      PutAllLastWins(m, init, i);
    }
  }

  /** Entries for URLs no image has are left as they were. */
  lemma {:induction false} PutAllKeepsOthers(m: map<string, Asset>, imgs: seq<Asset>, u: string)
    requires u in m
    requires forall j :: 0 <= j < |imgs| ==> imgs[j].slice.url != u
    ensures u in PutAll(m, imgs) && PutAll(m, imgs)[u] == m[u]
    decreases |imgs|
  {
    if |imgs| > 0 {
      var init := imgs[..|imgs| - 1];
      assert forall j :: 0 <= j < |init| ==> init[j] == imgs[j];
      PutAllKeepsOthers(m, init, u);
    }
  }

  // ---------------------------------------------------------------------------
  // makeInfo

  /** The heading of one reference row: the table name with its first `_` made a space. */
  function Dt(rkey: string, enc: Value -> string): string
  {
    "<dt>" + enc(Str(ReplaceFirst(rkey, '_', ' '))) + "</dt>"
  }

  /** The value of one reference row: `ref[rkey][info[ikey]]`, the id used as
      a property name. The table names always come from `ref` itself. */
  function Dd(ref: Ref, rkey: string, id: Value, enc: Value -> string): string
  {
    "<dd>" + enc(if rkey in ref then Get(ref[rkey], ToStr(id)) else Undefined) + "</dd>"
  }

  /** Whether the asset refers into table `rkey`: its `<rkey>_id` is truthy. */
  predicate Refers(fields: map<string, Value>, rkey: string)
  {
    Truthy(Get(fields, rkey + "_id"))
  }

  /** The `dt`/`dd` rows the loop builds over `keys`, in order. */
  function Rows(fields: map<string, Value>, ref: Ref, keys: seq<string>, enc: Value -> string): string
    decreases |keys|
  {
    if |keys| == 0 then ""
    else
      var k := keys[|keys| - 1];
      Rows(fields, ref, keys[..|keys| - 1], enc)
        + (if Refers(fields, k) then Dt(k, enc) + Dd(ref, k, Get(fields, k + "_id"), enc) else "")
  }

  /** The keys that get a row, in order. */
  function Emitted(fields: map<string, Value>, keys: seq<string>): seq<string>
    decreases |keys|
  {
    if |keys| == 0 then []
    else
      var k := keys[|keys| - 1];
      Emitted(fields, keys[..|keys| - 1]) + (if Refers(fields, k) then [k] else [])
  }

  /** One `dt`/`dd` pair per key. */
  function Pairs(fields: map<string, Value>, ref: Ref, keys: seq<string>, enc: Value -> string): string
    decreases |keys|
  {
    if |keys| == 0 then ""
    else
      var k := keys[|keys| - 1];
      Pairs(fields, ref, keys[..|keys| - 1], enc) + Dt(k, enc) + Dd(ref, k, Get(fields, k + "_id"), enc)
  }

  /** The rows are exactly one pair for each emitted key. */
  lemma {:induction false} RowsArePairs(fields: map<string, Value>, ref: Ref, keys: seq<string>, enc: Value -> string)
    ensures Rows(fields, ref, keys, enc) == Pairs(fields, ref, Emitted(fields, keys), enc)
    decreases |keys|
  {
    if |keys| > 0 {
      var init, k := keys[..|keys| - 1], keys[|keys| - 1];
      RowsArePairs(fields, ref, init, enc);
      var e := Emitted(fields, init);
      var pair := Dt(k, enc) + Dd(ref, k, Get(fields, k + "_id"), enc);
      if Refers(fields, k) {
        assert Emitted(fields, keys) == e + [k];
        assert (e + [k])[..|e|] == e;
        assert Pairs(fields, ref, e + [k], enc) == Pairs(fields, ref, e, enc) + pair;
        assert Rows(fields, ref, keys, enc) == Rows(fields, ref, init, enc) + pair;
      } else {
        assert Emitted(fields, keys) == e;
        assert Rows(fields, ref, keys, enc) == Rows(fields, ref, init, enc);
      }
    }
  }

  /** A key is emitted exactly when it is one of the keys and the asset refers
      to its table. */
  lemma {:induction false} EmittedMembers(fields: map<string, Value>, keys: seq<string>)
    ensures forall k :: k in Emitted(fields, keys) <==> k in keys && Refers(fields, k)
    decreases |keys|
  {
    if |keys| > 0 {
      var init := keys[..|keys| - 1];
      EmittedMembers(fields, init);
      assert keys == init + [keys[|keys| - 1]];
    }
  }

  /** The emitted keys keep the order of the keys. */
  lemma {:induction false} EmittedSorted(fields: map<string, Value>, keys: seq<string>)
    requires Sorted(keys)
    ensures Sorted(Emitted(fields, keys))
    decreases |keys|
  {
    if |keys| > 0 {
      var init, k := keys[..|keys| - 1], keys[|keys| - 1];
      assert Sorted(init);
      EmittedSorted(fields, init);
      EmittedMembers(fields, init);
      var e := Emitted(fields, init);
      if Refers(fields, k) {
        forall i, j | 0 <= i < j < |e + [k]| ensures Below((e + [k])[i], (e + [k])[j]) {
          if j == |e| {
            assert e[i] in init;
            var a :| 0 <= a < |init| && init[a] == e[i];
            assert keys[a] == e[i];
          }
        }
      }
    }
  }

  /** The optional first part of the info panel: headline, annotation (not
      escaped) and origin date, each when present. */
  function Head(f: map<string, Value>, enc: Value -> string): string
  {
    Headline(f, enc) + Annotation(f) + OriginDate(f, enc)
  }

  function Headline(f: map<string, Value>, enc: Value -> string): string
  {
    if Truthy(Get(f, "headline")) then Markup.TextDiv("headline", Get(f, "headline"), enc) else ""
  }

  function Annotation(f: map<string, Value>): string
  {
    if Truthy(Get(f, "annotation")) then Markup.RawDiv("annotation", ToStr(Get(f, "annotation"))) else ""
  }

  function OriginDate(f: map<string, Value>, enc: Value -> string): string
  {
    if Truthy(Get(f, "origin_date")) then Markup.TextDiv("origin-date", Get(f, "origin_date"), enc) else ""
  }

  /** The preview link from the info-sized image to the full-sized one, then
      the info body. */
  function Frame(full: Variant, img: Variant, body: string): string
  {
    "<div class=\"image-preview\"><div><a target=\"_blank\" href=\"" + full.url
      + "\"><img src=\"" + img.url + "\" width=\""
      + IntToString(img.width) + "\" height=\"" + IntToString(img.height) + "\"/></a></div></div>"
      + "<div class=\"info-detail\">" + body + "</div>"
      + "<br class=\"clear-both\" />"
  }

  /** The markup `makeInfo` returns for an asset, with the reference rows in
      sorted table-name order. */
  function InfoHtml(info: Asset, ref: Ref, keys: seq<string>, enc: Value -> string): string
  {
    Frame(info.full, info.info,
      Head(info.fields, enc) + "<dl>" + Rows(info.fields, ref, Sort(keys), enc) + "</dl>")
  }

  /** The rows of the info panel are one pair per table the asset refers to,
      in ascending name order, and no table is missed or repeated. */
  lemma InfoRows(info: Asset, ref: Ref, keys: seq<string>, enc: Value -> string)
    ensures var e := Emitted(info.fields, Sort(keys));
      && Sorted(e)
      && (forall k :: k in e <==> k in keys && Refers(info.fields, k))
      && Rows(info.fields, ref, Sort(keys), enc) == Pairs(info.fields, ref, e, enc)
  {
    var refs := Sort(keys);
    SortMembers(keys);
    SortSorted(keys);
    EmittedSorted(info.fields, refs);
    EmittedMembers(info.fields, refs);
    RowsArePairs(info.fields, ref, refs, enc);
  }

  // ---------------------------------------------------------------------------
  // The viewer

  function PageParms(current: nat): map<string, Value>
  {
    map["size" := Num(PageSize), "start" := Num(current)]
  }

  class Gallery {
    /** The data-source URL template, given by the page. Only its path is modelled. */
    const ds: string
    var state: Phase
    var current: nat
    var assetMap: map<string, Asset>
    var content: seq<Variant>
    var requests: seq<string>
    var ref: Ref
    /** The order in which `Object.keys` lists the tables. */
    var refKeys: seq<string>
    ghost var pending: nat

    ghost function View(): Pager
      reads this
    {
      Pager(state, current, pending)
    }

    /** `refKeys` lists every table of `ref` once. */
    ghost predicate Valid()
      reads this
    {
      (forall k :: k in refKeys <==> k in ref)
      && forall i, j :: 0 <= i < j < |refKeys| ==> refKeys[i] != refKeys[j]
    }

    constructor (ds: string)
      ensures Valid() && this.ds == ds && View() == Initial
      ensures assetMap == map[] && content == [] && requests == [] && ref == map[] && refKeys == []
    {
      this.ds := ds;
      state := Idle;
      current := 0;
      assetMap := map[];
      content := [];
      requests := [];
      ref := map[];
      refKeys := [];
      pending := 0;
    }

    /** `loadNext`: mark the viewer loading and request the page at
      `current` through the template. */
    method LoadNext()
      modifies this
      ensures View() == Step(old(View()), PageSize, Load)
      ensures requests == old(requests) + [UrlArgs.SubstitutePath(ds, PageParms(old(current)))]
      ensures assetMap == old(assetMap) && content == old(content)
      ensures ref == old(ref) && refKeys == old(refKeys)
    {
      state := Loading;
      var dsu := UrlArgs.SetURLArgs(ds, PageParms(current));
      requests := requests + [dsu];
      pending := pending + 1;
    }

    /** The scroll handler: load when near the bottom and idle. */
    method OnScroll(innerHeight: int, scrollY: int, bodyHeight: int)
      modifies this
      ensures var near := innerHeight + scrollY + Margin >= bodyHeight;
        && View() == Step(old(View()), PageSize, Scroll(near))
        && requests == old(requests)
            + (if Requests(old(View()), Scroll(near)) then [UrlArgs.SubstitutePath(ds, PageParms(old(current)))] else [])
      ensures assetMap == old(assetMap) && content == old(content)
      ensures ref == old(ref) && refKeys == old(refKeys)
    {
      if innerHeight + scrollY + Margin >= bodyHeight {
        if state == Idle {
          LoadNext();
        }
      }
    }

    /** `addImages`: append each slice image and remember its asset. */
    method AddImages(imgs: seq<Asset>)
      modifies this`content, this`assetMap
      ensures content == old(content) + Slices(imgs)
      ensures assetMap == PutAll(old(assetMap), imgs)
    {
      for i := 0 to |imgs|
        invariant content == old(content) + Slices(imgs[..i])
        invariant assetMap == PutAll(old(assetMap), imgs[..i])
      {
        assert imgs[..i + 1][..i] == imgs[..i];
        var info := imgs[i].slice;
        content := content + [info];
        assetMap := assetMap[info.url := imgs[i]];
      }
      assert imgs[..|imgs|] == imgs;
    }

    /** The page reply. */
    method OnPage(imgs: seq<Asset>)
      requires pending > 0
      modifies this
      ensures View() == Step(old(View()), PageSize, Reply(|imgs|))
      ensures content == old(content) + (if |imgs| > 0 then Slices(imgs) else [])
      ensures assetMap == (if |imgs| > 0 then PutAll(old(assetMap), imgs) else old(assetMap))
      ensures requests == old(requests) && ref == old(ref) && refKeys == old(refKeys)
    {
      if |imgs| > 0 {
        AddImages(imgs);
        current := current + PageSize;
        state := Idle;
      } else {
        state := Done;
      }
      pending := pending - 1;
    }

    /** The reply for one reference table: `ref[name] = rd`. A new name is
      listed after the existing ones. */
    method OnRefData(name: string, rd: map<string, Value>)
      requires Valid()
      modifies this`ref, this`refKeys
      ensures Valid()
      ensures ref == old(ref)[name := rd]
      ensures refKeys == old(refKeys) + (if name in old(ref) then [] else [name])
    {
      if name !in ref {
        refKeys := refKeys + [name];
      }
      ref := ref[name := rd];
    }

    /** `makeInfo`: build the detail markup for an asset. Its reference rows
      are for exactly the loaded tables the asset refers to, in ascending
      name order. */
    method MakeInfo(info: Asset, enc: Value -> string) returns (html: string)
      requires Valid()
      ensures html == InfoHtml(info, ref, refKeys, enc)
      ensures Sorted(Emitted(info.fields, Sort(refKeys)))
      ensures forall k :: k in Emitted(info.fields, Sort(refKeys)) <==> k in ref && Refers(info.fields, k)
    {
      InfoRows(info, ref, refKeys, enc);
      var img, full := info.info, info.full;
      var f := info.fields;
      var body := "";
      if Truthy(Get(f, "headline")) { body := body + Markup.TextDiv("headline", Get(f, "headline"), enc); }
      assert body == Headline(f, enc);
      if Truthy(Get(f, "annotation")) { body := body + Markup.RawDiv("annotation", ToStr(Get(f, "annotation"))); }
      assert body == Headline(f, enc) + Annotation(f);
      if Truthy(Get(f, "origin_date")) { body := body + Markup.TextDiv("origin-date", Get(f, "origin_date"), enc); }
      assert body == Head(f, enc);
      body := body + "<dl>";
      var rows := RefRows(f, ref, Sort(refKeys), enc);
      body := body + rows;
      body := body + "</dl>";
      html := Frame(full, img, body);
    }
  }

  /** The loop of `makeInfo` over the sorted table names. */
  method RefRows(f: map<string, Value>, ref: Ref, refs: seq<string>, enc: Value -> string) returns (body: string)
    ensures body == Rows(f, ref, refs, enc)
  {
    body := "";
    for i := 0 to |refs|
      invariant body == Rows(f, ref, refs[..i], enc)
    {
      assert refs[..i + 1][..i] == refs[..i];
      var rkey := refs[i];
      var ikey := rkey + "_id";
      if Truthy(Get(f, ikey)) {
        body := body + Dt(rkey, enc);
        body := body + Dd(ref, rkey, Get(f, ikey), enc);
      }
    }
    assert refs[..|refs|] == refs;
  }

  /** For a template whose path is `/data/page/:size/:start`, the request is
      `/data/page/100/<current>`. */
  lemma TemplateRequest(current: nat)
    ensures UrlArgs.SubstitutePath(Join(["", "data", "page", ":size", ":start"], '/'), PageParms(current))
      == Join(["", "data", "page", "100", NatToString(current)], '/')
  {
    var parts := ["", "data", "page", ":size", ":start"];
    assert Free(parts, '/');
    SplitJoin(parts, '/');
    TemplateSlots(current);
    TemplateTexts(current);
  }

  lemma TemplateSlots(current: nat)
    ensures UrlArgs.SubstAll(["", "data", "page", ":size", ":start"], PageParms(current))
      == [Str(""), Str("data"), Str("page"), Num(100), Num(current)]
  {
    var parms := PageParms(current);
    assert Get(parms, "size") == Num(100);
    assert Get(parms, "start") == Num(current);
    UrlArgs.SubstPlaceholder("size", parms);
    UrlArgs.SubstPlaceholder("start", parms);
    assert [':'] + "size" == ":size" && [':'] + "start" == ":start";
  }

  lemma Hundred()
    ensures NatToString(100) == "100"
  {
    assert NatToString(1) == "1";
    assert NatToString(10) == NatToString(1) + "0";
    assert NatToString(100) == NatToString(10) + "0";
  }

  lemma TemplateTexts(current: nat)
    ensures UrlArgs.Texts([Str(""), Str("data"), Str("page"), Num(100), Num(current)])
      == ["", "data", "page", "100", NatToString(current)]
  {
    Hundred();
    assert JoinStr(Num(100)) == "100";
    assert JoinStr(Num(current)) == NatToString(current);
  }
}
