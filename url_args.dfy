/** `setURLArgs`, on the path part of a URL: the path is split on `/`, every
    segment of the form `:name` is replaced in place by `parms[name]` unless
    that is `null`, and the segments are joined again. The same function is
    defined in two files of the gallery viewer. */
module UrlArgs {
  import opened JsString

  /** The new value of one segment slot. A `:name` whose parameter is
      missing becomes `undefined`; one whose parameter is `null` stays. */
  function Subst(seg: string, parms: map<string, Value>): Value
  {
    if |seg| > 0 && seg[0] == ':' then
      var v := Get(parms, seg[1..]);
      if v != Null then v else Str(seg)
    else Str(seg)
  }

  function SubstAll(segs: seq<string>, parms: map<string, Value>): (r: seq<Value>)
    ensures |r| == |segs| && forall i :: 0 <= i < |segs| ==> r[i] == Subst(segs[i], parms)
  {
    if |segs| == 0 then [] else [Subst(segs[0], parms)] + SubstAll(segs[1..], parms)
  }

  function Texts(slots: seq<Value>): (r: seq<string>)
    ensures |r| == |slots| && forall i :: 0 <= i < |slots| ==> r[i] == JoinStr(slots[i])
  {
    if |slots| == 0 then [] else [JoinStr(slots[0])] + Texts(slots[1..])
  }

  /** A `:name` segment takes the parameter's value unless it is `null`. */
  lemma SubstPlaceholder(name: string, parms: map<string, Value>)
    requires Get(parms, name) != Null
    ensures Subst([':'] + name, parms) == Get(parms, name)
  {
    assert ([':'] + name)[1..] == name;
  }

  /** The path that `setURLArgs` produces. */
  function SubstitutePath(path: string, parms: map<string, Value>): string
  {
    Join(Texts(SubstAll(Split(path, '/'), parms)), '/')
  }

  /** The loop over the split path, overwriting slots in place. */
  method SubstituteSlots(p: array<Value>, parms: map<string, Value>)
    modifies p
    ensures forall i :: 0 <= i < p.Length ==>
      p[i] == (if old(p[i]).Str? then Subst(old(p[i]).s, parms) else old(p[i]))
  {
    for i := 0 to p.Length
      invariant forall j :: 0 <= j < i ==>
        p[j] == (if old(p[j]).Str? then Subst(old(p[j]).s, parms) else old(p[j]))
      invariant forall j :: i <= j < p.Length ==> p[j] == old(p[j])
    {
      var pp := p[i];
      if pp.Str? && |pp.s| > 0 && pp.s[0] == ':' {
        var v := Get(parms, pp.s[1..]);
        if v != Null {
          p[i] := v;
        }
      }
    }
  }

  /** `setURLArgs` on a path: split, substitute in place, join. */
  method SetURLArgs(path: string, parms: map<string, Value>) returns (r: string)
    ensures r == SubstitutePath(path, parms)
  {
    var parts := Split(path, '/');
    var p := new Value[|parts|](i requires 0 <= i < |parts| => Str(parts[i]));
    SubstituteSlots(p, parms);
    assert p[..] == SubstAll(parts, parms);
    r := Join(Texts(p[..]), '/');
  }

  // ---------------------------------------------------------------------------

  /** Segment by segment: a segment not starting with `:` is kept; `:name`
      becomes the parameter's text (`String(v)`), stays when the parameter is `null`, and
      becomes empty when there is no such parameter. */
  lemma SegmentsOfResult(path: string, parms: map<string, Value>, i: nat)
    requires i < |Split(path, '/')|
    ensures var seg, out := Split(path, '/')[i], Texts(SubstAll(Split(path, '/'), parms))[i];
      && (!(|seg| > 0 && seg[0] == ':') ==> out == seg)
      && (|seg| > 0 && seg[0] == ':' && Get(parms, seg[1..]) == Null ==> out == seg)
      && (|seg| > 0 && seg[0] == ':' && seg[1..] !in parms ==> out == "")
      && (|seg| > 0 && seg[0] == ':' && Get(parms, seg[1..]).Str? ==> out == Get(parms, seg[1..]).s)
      && (|seg| > 0 && seg[0] == ':' && Get(parms, seg[1..]).Num? ==> out == IntToString(Get(parms, seg[1..]).n))
      && (|seg| > 0 && seg[0] == ':' && Get(parms, seg[1..]) != Null && Get(parms, seg[1..]) != Undefined
          ==> out == ToStr(Get(parms, seg[1..])))
  {
  }

  /** No parameter named by a placeholder of `path` has `/` in its text. */
  predicate SlashFreeValues(path: string, parms: map<string, Value>)
  {
    var segs := Split(path, '/');
    forall i :: 0 <= i < |segs| && |segs[i]| > 0 && segs[i][0] == ':' ==> '/' !in JoinStr(Get(parms, segs[i][1..]))
  }

  /** When no substituted value contains `/`, the result has as many
      segments as the input path, and they are the substituted segments. */
  lemma SameSegmentCount(path: string, parms: map<string, Value>)
    requires SlashFreeValues(path, parms)
    ensures Split(SubstitutePath(path, parms), '/') == Texts(SubstAll(Split(path, '/'), parms))
    ensures |Split(SubstitutePath(path, parms), '/')| == |Split(path, '/')|
  {
    var segs := Split(path, '/');
    var outs := Texts(SubstAll(segs, parms));
    SplitFree(path, '/');
    forall i | 0 <= i < |outs| ensures '/' !in outs[i] {
      var seg := segs[i];
      assert '/' !in seg;
      if |seg| > 0 && seg[0] == ':' && Get(parms, seg[1..]) != Null {
        assert outs[i] == JoinStr(Get(parms, seg[1..]));
      }
    }
    SplitJoin(outs, '/');
  }

  /** A path without `:` segments comes back unchanged. */
  lemma NoPlaceholders(path: string, parms: map<string, Value>)
    requires forall i :: 0 <= i < |Split(path, '/')| ==> !(|Split(path, '/')[i]| > 0 && Split(path, '/')[i][0] == ':')
    ensures SubstitutePath(path, parms) == path
  {
    var segs := Split(path, '/');
    assert Texts(SubstAll(segs, parms)) == segs;
    JoinSplit(path, '/');
  }
}
