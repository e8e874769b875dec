// Where usbc_parse_descriptors of kernel/src/usb/usb.c puts each descriptor of the stream.
module UsbFiling {
  import opened UsbDescriptors

  predicate OwnsIface(c: CfgRec, i: nat) { c.num > 0 && c.first <= i < c.first + c.num }

  predicate OwnsEp(r: IfRec, e: nat) { r.num > 0 && r.first <= e < r.first + r.num }

  // A descriptor has the next record of its kind. An interface belongs to the last configuration
  // before it in the stream, an endpoint to the last interface before it.
  ghost predicate Placed(t: Tree, before: seq<Desc>, d: Desc) {
    var c, i, e := Count(before, Config), Count(before, Iface), Count(before, Ep);
    match d.kind
    case Config => c < |t.cfgs| && t.cfgs[c].desc == d.bytes
    case Iface => i < |t.ifs| && t.ifs[i].desc == d.bytes && 0 < c <= |t.cfgs| && OwnsIface(t.cfgs[c - 1], i)
    case Ep => e < |t.eps| && t.eps[e].desc == d.bytes && 0 < i <= |t.ifs| && OwnsEp(t.ifs[i - 1], e)
  }

  ghost predicate Filed(t: Tree, s: seq<Desc>) {
    forall m :: 0 <= m < |s| ==> Placed(t, s[..m], s[m])
  }

  // ---------- one more descriptor ----------

  // Records stay where they are, and keep what they own.
  ghost predicate Keeps(t: Tree, u: Tree) {
    && |t.cfgs| <= |u.cfgs| && |t.ifs| <= |u.ifs| && t.eps <= u.eps
    && (forall k :: 0 <= k < |t.cfgs| ==> u.cfgs[k].desc == t.cfgs[k].desc)
    && (forall k :: 0 <= k < |t.ifs| ==> u.ifs[k].desc == t.ifs[k].desc)
    && (forall k, i :: 0 <= k < |t.cfgs| && 0 <= i && OwnsIface(t.cfgs[k], i) ==> OwnsIface(u.cfgs[k], i))
    && (forall k, e :: 0 <= k < |t.ifs| && 0 <= e && OwnsEp(t.ifs[k], e) ==> OwnsEp(u.ifs[k], e))
  }

  lemma PlacedKept(t: Tree, u: Tree, before: seq<Desc>, d: Desc)
    requires Keeps(t, u) && Placed(t, before, d)
    ensures Placed(u, before, d)
  {
    hide Count, OwnsIface, OwnsEp;
  }

  lemma FiledMore(t: Tree, u: Tree, s: seq<Desc>, d: Desc)
    requires Filed(t, s) && Keeps(t, u) && Placed(u, s, d)
    ensures Filed(u, s + [d])
  {
    hide Placed, Keeps;
    var r := s + [d];
    forall m | 0 <= m < |r|
      ensures Placed(u, r[..m], r[m])
    {
      assert r[..m] == s[..m];
      if m < |s| {
        PlacedKept(t, u, s[..m], s[m]);
      } else {
        assert s[..m] == s;
      }
    }
  }

  lemma FileConfig(t: Tree, s: seq<Desc>, r: CfgRec)
    requires Filed(t, s) && |t.cfgs| == Count(s, Config)
    ensures Filed(AddConfig(t, r), s + [Desc(Config, r.desc)])
  {
    hide Filed, Count;
    FiledMore(t, AddConfig(t, r), s, Desc(Config, r.desc));
  }

  lemma FileIface(t: Tree, s: seq<Desc>, r: IfRec)
    requires Filed(t, s) && Sliced(t) && t.cfgs != [] && |t.cfgs| == Count(s, Config) && |t.ifs| == Count(s, Iface)
    ensures Filed(AddIface(t, r), s + [Desc(Iface, r.desc)])
  {
    hide Filed, Count, Sliced;
    var k := |t.cfgs| - 1;
    if t.cfgs[k].num > 0 { LastSlice(t); }
    FiledMore(t, AddIface(t, r), s, Desc(Iface, r.desc));
  }

  lemma FileEp(t: Tree, s: seq<Desc>, r: EpRec)
    requires Filed(t, s) && Sliced(t) && t.ifs != [] && |t.ifs| == Count(s, Iface) && |t.eps| == Count(s, Ep)
    ensures Filed(AddEp(t, r), s + [Desc(Ep, r.desc)])
  {
    hide Filed, Count, Sliced;
    if t.ifs[|t.ifs| - 1].num > 0 { LastEps(t); }
    FiledMore(t, AddEp(t, r), s, Desc(Ep, r.desc));
  }

  // ---------- under which configuration an endpoint is found ----------

  lemma {:induction false} CountMono(s: seq<Desc>, p: nat, m: nat, k: Kind)
    requires p <= m <= |s|
    ensures Count(s[..p], k) <= Count(s[..m], k)
  {
    if p < m {
      CountMono(s, p, m - 1, k);
      CountAt(s, m - 1, k);
    }
  }

  lemma CountAt(s: seq<Desc>, m: nat, k: Kind)
    requires m < |s|
    ensures Count(s[..m + 1], k) == Count(s[..m], k) + if s[m].kind == k then 1 else 0
  {
    assert s[..m + 1][..m] == s[..m];
  }

  lemma {:induction false} LastIface(s: seq<Desc>, m: nat) returns (p: nat)
    requires m <= |s| && Count(s[..m], Iface) > 0
    ensures p < m && s[p].kind == Iface && Count(s[..p], Iface) + 1 == Count(s[..m], Iface)
    ensures forall q :: p < q < m ==> s[q].kind != Iface
  {
    CountAt(s, m - 1, Iface);
    if s[m - 1].kind == Iface {
      p := m - 1;
    } else {
      p := LastIface(s, m - 1);
    }
  }

  // The interface that an endpoint goes to belongs to the last configuration before the endpoint
  // exactly when an interface stands between that configuration and the endpoint.
  lemma EndpointConfig(t: Tree, s: seq<Desc>, m: nat)
    requires Sliced(t) && Filed(t, s) && m < |s| && s[m].kind == Ep
    ensures Count(s[..m], Iface) > 0 && 0 < Count(s[..m], Config) <= |t.cfgs|
    ensures OwnsIface(t.cfgs[Count(s[..m], Config) - 1], Count(s[..m], Iface) - 1)
            <==> exists p :: 0 <= p < m && s[p].kind == Iface && Count(s[..p], Config) == Count(s[..m], Config)
  {
    hide Count, Sliced;
    assert Placed(t, s[..m], s[m]);
    var p := LastIface(s, m);
    assert Placed(t, s[..p], s[p]);
    CountMono(s, p, m, Config);
    var i, k := Count(s[..p], Iface), Count(s[..p], Config) - 1;
    CfgsFiled(t, s, m);
    var parent := OneParent(t, i);
    assert parent == k;
    if q :| 0 <= q < m && s[q].kind == Iface && Count(s[..q], Config) == Count(s[..m], Config) {
      if q > p { assert false; }
      CountMono(s, q, p, Config);
    }
  }

  // Every configuration met so far has its record.
  lemma {:induction false} CfgsFiled(t: Tree, s: seq<Desc>, m: nat)
    requires Filed(t, s) && m <= |s|
    ensures Count(s[..m], Config) <= |t.cfgs|
  {
    if m > 0 {
      CfgsFiled(t, s, m - 1);
      CountAt(s, m - 1, Config);
      assert Placed(t, s[..m - 1], s[m - 1]);
    }
  }

  // So an endpoint right behind a configuration is found under an earlier one.
  lemma Misfiled(t: Tree, s: seq<Desc>, m: nat) returns (i: nat, k: nat)
    requires Sliced(t) && Filed(t, s) && m + 1 < |s| && s[m].kind == Config && s[m + 1].kind == Ep
    ensures i < |t.ifs| && OwnsEp(t.ifs[i], Count(s[..m + 1], Ep))
            && t.eps[Count(s[..m + 1], Ep)].desc == s[m + 1].bytes
    ensures k < Count(s[..m], Config) < |t.cfgs| && OwnsIface(t.cfgs[k], i)
    ensures t.cfgs[Count(s[..m], Config)].desc == s[m].bytes && !OwnsIface(t.cfgs[Count(s[..m], Config)], i)
  {
    hide Count, Sliced, OwnsEp;
    assert Placed(t, s[..m], s[m]) && Placed(t, s[..m + 1], s[m + 1]);
    CountAt(s, m, Config);
    CountAt(s, m, Iface);
    var p := LastIface(s, m + 1);
    assert p < m && Placed(t, s[..p], s[p]);
    CountMono(s, p, m, Config);
    i, k := Count(s[..p], Iface), Count(s[..p], Config) - 1;
    var parent := OneParent(t, i);
  }
}
