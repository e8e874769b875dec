// usbc_verify_descriptors, usbc_alloc_descriptors, usbc_init_descriptors and
// usbc_parse_descriptors of kernel/src/usb/usb.c.
module UsbParser {
  import opened Octets
  import opened Options
  import opened UsbDescriptors
  import opened UsbFiling

  // The parser goes through: each interface comes after a configuration, each endpoint after
  // an interface.
  ghost predicate Rooted(s: seq<Desc>) {
    forall k :: 0 <= k < |s| ==>
      && (s[k].kind == Iface ==> Count(s[..k], Config) > 0)
      && (s[k].kind == Ep ==> Count(s[..k], Iface) > 0)
  }

  // The stream is a tree read out in order: it starts with a configuration, and no endpoint
  // follows a configuration directly.
  ghost predicate Nested(s: seq<Desc>) {
    && (s != [] ==> s[0].kind == Config)
    && forall k, j :: 0 <= j && k == j + 1 && k < |s| && s[k].kind == Ep ==> s[j].kind != Config
  }

  lemma {:induction false} HasConfig(s: seq<Desc>, k: nat)
    requires s != [] && s[0].kind == Config && 0 < k <= |s|
    ensures Count(s[..k], Config) > 0
  {
    CountSome(s[..k], Config);
    assert s[..k][0].kind == Config;
  }

  lemma {:induction false} HasIface(s: seq<Desc>, k: nat)
    requires Nested(s) && k < |s| && s[k].kind == Ep
    ensures Count(s[..k], Iface) > 0
  {
    var j := k - 1;
    assert k > 0 && s[j].kind != Config;
    CountSome(s[..k], Iface);
    if s[j].kind == Iface {
      assert s[..k][j].kind == Iface;
    } else {
      HasIface(s, j);
      CountSome(s[..j], Iface);
      var i :| 0 <= i < |s[..j]| && s[..j][i].kind == Iface;
      assert s[..k][i].kind == Iface;
    }
  }

  // Every stream that is a tree in order is parsed.
  lemma NestedRooted(s: seq<Desc>)
    requires Nested(s)
    ensures Rooted(s)
  {
    forall k | 0 <= k < |s|
      ensures s[k].kind == Iface ==> Count(s[..k], Config) > 0
      ensures s[k].kind == Ep ==> Count(s[..k], Iface) > 0
    {
      if s[k].kind == Iface { HasConfig(s, k); }
      if s[k].kind == Ep { HasIface(s, k); }
    }
  }

  // ---------- what is read out of a tree is nested ----------

  ghost predicate Grouped(s: seq<Desc>) {
    && (s != [] ==> s[0].kind != Ep)
    && forall k, j :: 0 <= j && k == j + 1 && k < |s| && s[k].kind == Ep ==> s[j].kind != Config
  }

  lemma GroupedConcat(a: seq<Desc>, b: seq<Desc>)
    requires Grouped(a) && Grouped(b)
    ensures Grouped(a + b)
  {
    var s := a + b;
    forall k, j | 0 <= j && k == j + 1 && k < |s| && s[k].kind == Ep
      ensures s[j].kind != Config
    {
      if k > |a| { assert s[k] == b[k - |a|] && s[j] == b[j - |a|]; }
    }
  }

  lemma {:induction false} EpsKinds(t: Tree, lo: nat, n: nat)
    requires lo + n <= |t.eps|
    ensures forall d :: d in EpsFrom(t, lo, n) ==> d.kind == Ep
  {
    if n > 0 { EpsKinds(t, lo, n - 1); }
  }

  lemma IfaceGrouped(t: Tree, k: nat)
    requires k < |t.ifs| && EpsInside(t)
    ensures Grouped(IfaceOut(t, k))
  {
    hide EpsFrom;
    if t.ifs[k].num > 0 {
      EpsKinds(t, t.ifs[k].first, t.ifs[k].num);
      var e := EpsFrom(t, t.ifs[k].first, t.ifs[k].num);
      assert forall i :: 0 <= i < |e| ==> e[i] in e;
    }
  }

  lemma {:induction false} IfacesGrouped(t: Tree, lo: nat, n: nat)
    requires lo + n <= |t.ifs| && EpsInside(t)
    ensures Grouped(IfacesFrom(t, lo, n))
  {
    hide IfaceOut;
    if n > 0 {
      IfacesGrouped(t, lo, n - 1);
      IfaceGrouped(t, lo + n - 1);
      GroupedConcat(IfacesFrom(t, lo, n - 1), IfaceOut(t, lo + n - 1));
    }
  }

  lemma {:induction false} FlattenNested(t: Tree, n: nat)
    requires n <= |t.cfgs| && EpsInside(t) && IfsInside(t)
    ensures Grouped(Flatten(t, n)) && Nested(Flatten(t, n))
  {
    hide IfacesFrom;
    if n > 0 {
      FlattenNested(t, n - 1);
      FlattenStep(t, n);
      hide Flatten;
      var c := t.cfgs[n - 1];
      var head, tail := [Desc(Config, c.desc)], if c.num == 0 then [] else IfacesFrom(t, c.first, c.num);
      if c.num > 0 { IfacesGrouped(t, c.first, c.num); }
      GroupedConcat(head, tail);
      GroupedConcat(Flatten(t, n - 1), head + tail);
      assert Flatten(t, n - 1) + head + tail == Flatten(t, n - 1) + (head + tail);
    }
  }

  // ---------- one more descriptor ----------

  // What holds when the descriptors `done` have been taken in.
  ghost predicate Parsed(t: Tree, done: seq<Desc>) {
    && Sliced(t) && EpsInside(t) && IfsInside(t) && Filed(t, done)
    && |t.cfgs| == Count(done, Config) && |t.ifs| == Count(done, Iface) && |t.eps| == Count(done, Ep)
    && (Nested(done) ==> Flatten(t, |t.cfgs|) == done)
    && (Nested(done) && done != [] && done[|done| - 1].kind != Config ==>
          t.cfgs != [] && t.cfgs[|t.cfgs| - 1].num > 0)
  }

  lemma CountMore(done: seq<Desc>, d: Desc, k: Kind)
    ensures Count(done + [d], k) == Count(done, k) + if d.kind == k then 1 else 0
  {
    assert (done + [d])[..|done|] == done;
  }

  lemma NestedMore(done: seq<Desc>, d: Desc)
    requires Nested(done + [d])
    ensures Nested(done)
    ensures done == [] ==> d.kind == Config
    ensures done != [] && d.kind == Ep ==> done[|done| - 1].kind != Config
  {
    var s := done + [d];
    assert forall k :: 0 <= k < |done| ==> s[k] == done[k];
    if done != [] {
      var j := |done| - 1;
      assert s[j] == done[j] && s[j + 1] == d;
    }
  }

  lemma TakeConfig(t: Tree, done: seq<Desc>, r: CfgRec)
    requires Parsed(t, done) && r.num == 0
    ensures Parsed(AddConfig(t, r), done + [Desc(Config, r.desc)])
  {
    hide Sliced, Flatten, Count, Nested, Filed;
    FileConfig(t, done, r);
    var d := Desc(Config, r.desc);
    FlattenConfig(t, r);
    CountMore(done, d, Config);
    CountMore(done, d, Iface);
    CountMore(done, d, Ep);
    if Nested(done + [d]) { NestedMore(done, d); }
  }

  lemma TakeIface(t: Tree, done: seq<Desc>, r: IfRec)
    requires Parsed(t, done) && r.num == 0 && t.cfgs != []
    ensures Parsed(AddIface(t, r), done + [Desc(Iface, r.desc)])
  {
    hide Sliced, Flatten, Count, Nested, Filed;
    FileIface(t, done, r);
    var d := Desc(Iface, r.desc);
    FlattenIface(t, r);
    CountMore(done, d, Config);
    CountMore(done, d, Iface);
    CountMore(done, d, Ep);
    if Nested(done + [d]) { NestedMore(done, d); }
  }

  lemma TakeEp(t: Tree, done: seq<Desc>, r: EpRec)
    requires Parsed(t, done) && t.ifs != []
    ensures Parsed(AddEp(t, r), done + [Desc(Ep, r.desc)])
  {
    hide Sliced, Flatten, Count, Nested, Filed;
    FileEp(t, done, r);
    var d, u := Desc(Ep, r.desc), AddEp(t, r);
    AddSliced(t);
    SlicedInside(u);
    CountMore(done, d, Config);
    CountMore(done, d, Iface);
    CountMore(done, d, Ep);
    if Nested(done + [d]) {
      NestedMore(done, d);
      FlattenEp(t, r);
    }
  }

  // The tree is the stream exactly when the stream is a tree in order.
  lemma RoundTrip(t: Tree, s: seq<Desc>)
    requires Parsed(t, s)
    ensures Flatten(t, |t.cfgs|) == s <==> Nested(s)
  {
    FlattenNested(t, |t.cfgs|);
  }

  // ---------- streams and the descriptors they are made of ----------

  // A descriptor as a device sends it: its length comes first, and its type second.
  predicate Whole(c: seq<Octet>) { |c| >= 2 && c[0] as int == |c| }

  function Joined(chunks: seq<seq<Octet>>): seq<Octet> {
    if chunks == [] then [] else chunks[0] + Joined(chunks[1..])
  }

  // The configurations have nine bytes, as the interfaces have, and the endpoints seven.
  predicate Proper(c: seq<Octet>)
    requires Whole(c)
  {
    (c[1] == 0x02 || c[1] == 0x04 ==> |c| == 9) && (c[1] == 0x05 ==> |c| == 7)
  }

  predicate AllWhole(chunks: seq<seq<Octet>>) { forall i :: 0 <= i < |chunks| ==> Whole(chunks[i]) }

  predicate AllProper(chunks: seq<seq<Octet>>)
    requires AllWhole(chunks)
  {
    forall i :: 0 <= i < |chunks| ==> Proper(chunks[i])
  }

  function KnownOne(c: seq<Octet>): seq<Desc>
    requires Whole(c)
  {
    if c[1] == 0x02 then [Desc(Config, c)]
    else if c[1] == 0x04 then [Desc(Iface, c)]
    else if c[1] == 0x05 then [Desc(Ep, c)]
    else []
  }

  function Known(chunks: seq<seq<Octet>>): seq<Desc>
    requires AllWhole(chunks)
  {
    if chunks == [] then [] else KnownOne(chunks[0]) + Known(chunks[1..])
  }

  // A buffer that holds descriptors one after the other is accepted exactly if those of the three
  // kinds have their proper lengths, and then it is read as these descriptors, in order.
  lemma {:induction false} ReadsBack(data: seq<Octet>, size: nat, pos: nat, chunks: seq<seq<Octet>>)
    requires pos <= size && size + 5 <= |data| && data[pos..size] == Joined(chunks) && AllWhole(chunks)
    ensures Walkable(data, size, pos)
    ensures Verdict(data, size, pos) <==> AllProper(chunks)
    ensures Verdict(data, size, pos) ==> Stream(data, size, pos) == Known(chunks)
    decreases |chunks|
  {
    if chunks != [] {
      var c, rest := chunks[0], chunks[1..];
      FirstChunk(data, size, pos, c, Joined(rest));
      hide Walkable, Verdict, Stream;
      ReadsBack(data, size, pos + |c|, rest);
      ReadsChunk(data, size, pos, c);
      assert AllProper(chunks) <==> Proper(c) && AllProper(rest) by {
        assert forall i :: 0 <= i < |rest| ==> rest[i] == chunks[i + 1];
        assert forall i :: 1 <= i < |chunks| ==> chunks[i] == rest[i - 1];
      }
    }
  }

  // One descriptor in front of the rest
  lemma ReadsChunk(data: seq<Octet>, size: nat, pos: nat, c: seq<Octet>)
    requires Whole(c) && pos + |c| <= size && size + 5 <= |data| && data[pos..pos + |c|] == c
    requires Walkable(data, size, pos + |c|)
    ensures Walkable(data, size, pos)
    ensures Verdict(data, size, pos) <==> Proper(c) && Verdict(data, size, pos + |c|)
    ensures Verdict(data, size, pos) ==> Stream(data, size, pos) == KnownOne(c) + Stream(data, size, pos + |c|)
  {
    assert data[pos] == c[0] && data[pos + 1] == c[1];
  }

  lemma FirstChunk(data: seq<Octet>, size: nat, pos: nat, c: seq<Octet>, rest: seq<Octet>)
    requires pos <= size <= |data| && Whole(c) && data[pos..size] == c + rest
    ensures pos + |c| <= size && data[pos] == c[0] && data[pos + 1] == c[1]
    ensures data[pos..pos + |c|] == c && data[pos + |c|..size] == rest
  {
    var d := data[pos..size];
    assert d[0] == data[pos] && d[1] == data[pos + 1];
    assert d[..|c|] == c && d[|c|..] == rest;
    assert data[pos..pos + |c|] == d[..|c|] && data[pos + |c|..size] == d[|c|..];
  }

  // One whose last descriptor is cut off is refused.
  lemma {:induction false} CutOff(data: seq<Octet>, size: nat, pos: nat, chunks: seq<seq<Octet>>, part: seq<Octet>)
    requires pos <= size && size + 5 <= |data| && data[pos..size] == Joined(chunks) + part
    requires AllWhole(chunks) && |part| >= 2 && part[0] as int > |part|
    ensures Walkable(data, size, pos) && !Verdict(data, size, pos)
    decreases |chunks|
  {
    if chunks == [] {
      assert data[pos..size] == part && part[0] == data[pos];
    } else {
      var c, rest := chunks[0], chunks[1..];
      assert Joined(chunks) + part == c + (Joined(rest) + part);
      FirstChunk(data, size, pos, c, Joined(rest) + part);
      hide Walkable, Verdict, Joined;
      CutOff(data, size, pos + |c|, rest, part);
      ReadsChunk(data, size, pos, c);
    }
  }

  // ---------- a stream that is not a tree ----------

  // Two configurations, one interface with one endpoint; the second configuration stands between
  // the interface and the endpoint.
  function Crossed(): seq<Octet> {
    [9, 2, 0, 0, 0, 0, 0, 0, 0]
    + [9, 4, 0, 0, 0, 0, 0, 0, 0]
    + [9, 2, 1, 0, 0, 0, 0, 0, 0]
    + [7, 5, 0, 0, 0, 0, 0]
    + [0, 0, 0, 0, 0]
  }

  lemma CrossedHeads()
    ensures var b := Crossed();
            && |b| == 39 && b[0] == 9 && b[1] == 2 && b[9] == 9 && b[10] == 4
            && b[18] == 9 && b[19] == 2 && b[27] == 7 && b[28] == 5
  {
  }

  // One descriptor in front of a stream
  lemma InFront(data: seq<Octet>, size: nat, pos: nat, next: nat)
    requires size + 5 <= |data| && pos + 1 < size && Relevant(data[pos + 1]) && next == pos + data[pos]
    requires data[pos] == Length(KindOf(data[pos + 1])) && Walkable(data, size, next) && Verdict(data, size, next)
    ensures Walkable(data, size, pos) && Verdict(data, size, pos)
    ensures Stream(data, size, pos) == [Desc(KindOf(data[pos + 1]), data[pos..next])] + Stream(data, size, next)
  {
  }

  // It is accepted and parsed, and yet it is not a tree read out in order.
  lemma CrossedStream()
    ensures Walkable(Crossed(), 34, 0) && Verdict(Crossed(), 34, 0)
    ensures var s := Stream(Crossed(), 34, 0);
            && |s| == 4 && s[0].kind == Config && s[1].kind == Iface && s[2].kind == Config && s[3].kind == Ep
            && Rooted(s) && !Nested(s)
  {
    hide Crossed, Walkable, Verdict, Stream, Count, Rooted;
    var b := Crossed();
    CrossedHeads();
    AtEnd(b, 34);
    InFront(b, 34, 27, 34);
    InFront(b, 34, 18, 27);
    InFront(b, 34, 9, 18);
    InFront(b, 34, 0, 9);
    var s := Stream(b, 34, 0);
    CrossedRooted(s);
  }

  lemma AtEnd(data: seq<Octet>, size: nat)
    requires size + 5 <= |data|
    ensures Walkable(data, size, size) && Verdict(data, size, size) && Stream(data, size, size) == []
  {
  }

  lemma CrossedRooted(s: seq<Desc>)
    requires |s| == 4 && s[0].kind == Config && s[1].kind == Iface && s[2].kind == Config && s[3].kind == Ep
    ensures Rooted(s) && !Nested(s)
  {
    hide Count;
    HasConfig(s, 1);
    CountSome(s[..3], Iface);
    assert s[..3][1].kind == Iface;
    var j := 2;
    assert s[j + 1].kind == Ep && s[j].kind == Config;
  }

  // Its endpoint is found under the first configuration.
  lemma CrossedFiled(t: Tree)
    requires Sliced(t)
    requires Walkable(Crossed(), 34, 0) && Verdict(Crossed(), 34, 0) && Filed(t, Stream(Crossed(), 34, 0))
    ensures |t.cfgs| >= 2 && |t.ifs| >= 1 && OwnsEp(t.ifs[0], 0)
    ensures OwnsIface(t.cfgs[0], 0) && !OwnsIface(t.cfgs[1], 0)
  {
    hide Crossed, Walkable, Verdict, Stream, Count, Rooted, Filed, Sliced;
    CrossedStream();
    var s := Stream(Crossed(), 34, 0);
    forall k: Kind
      ensures Count(s[..0], k) == 0
      ensures Count(s[..1], k) == if k == Config then 1 else 0
      ensures Count(s[..2], k) == if k == Ep then 0 else 1
      ensures Count(s[..3], k) == if k == Ep then 0 else if k == Iface then 1 else 2
    {
      NoneYet(s, k);
      CountAt(s, 0, k);
      CountAt(s, 1, k);
      CountAt(s, 2, k);
    }
    var i, c := Misfiled(t, s, 2);
    PlacedAt(t, s, 1);
    PlacedAt(t, s, 3);
    var parent := OneParent(t, 0);
  }

  lemma NoneYet(s: seq<Desc>, k: Kind)
    ensures Count(s[..0], k) == 0
  {
  }

  lemma PlacedAt(t: Tree, s: seq<Desc>, m: nat)
    requires Filed(t, s) && m < |s|
    ensures Placed(t, s[..m], s[m])
  {
  }

  // ---------- the code ----------

  lemma CountFront(d: Desc, s: seq<Desc>, k: Kind)
    ensures Count([d] + s, k) == (if d.kind == k then 1 else 0) + Count(s, k)
  {
    CountConcat([d], s, k);
    assert [d][..0] == [];
  }

  // One step of either walk
  lemma StreamStep(data: seq<Octet>, size: nat, pos: nat)
    requires Walkable(data, size, pos) && Verdict(data, size, pos) && pos < size
    ensures pos + data[pos] <= size && Walkable(data, size, pos + data[pos]) && Verdict(data, size, pos + data[pos])
    ensures Relevant(data[pos + 1]) ==> data[pos] == Length(KindOf(data[pos + 1]))
    ensures Stream(data, size, pos) ==
            (if Relevant(data[pos + 1]) then [Desc(KindOf(data[pos + 1]), data[pos..pos + data[pos]])] else [])
            + Stream(data, size, pos + data[pos])
  {
    VerdictInside(data, size, pos);
  }

  // The counts so far and the counts of the rest are the counts of the whole stream.
  ghost predicate Counted(data: seq<Octet>, size: nat, pos: nat, configs: nat, ifaces: nat, eps: nat) {
    && Walkable(data, size, 0) && Walkable(data, size, pos) && (Verdict(data, size, 0) <==> Verdict(data, size, pos))
    && (Verdict(data, size, pos) ==>
          && configs + Count(Stream(data, size, pos), Config) == Count(Stream(data, size, 0), Config)
          && ifaces + Count(Stream(data, size, pos), Iface) == Count(Stream(data, size, 0), Iface)
          && eps + Count(Stream(data, size, pos), Ep) == Count(Stream(data, size, 0), Ep))
  }

  lemma CountedStep(data: seq<Octet>, size: nat, pos: nat, configs: nat, ifaces: nat, eps: nat, t: Octet)
    requires Counted(data, size, pos, configs, ifaces, eps) && pos < size && t == data[pos + 1]
    ensures !(Relevant(t) && data[pos] != Length(KindOf(t))) ==>
              Counted(data, size, pos + data[pos], configs + if t == USB_DESC_CONFIG then 1 else 0,
                      ifaces + if t == USB_DESC_IFACE then 1 else 0, eps + if t == USB_DESC_EP then 1 else 0)
  {
    hide Stream;
    if Verdict(data, size, pos) {
      StreamStep(data, size, pos);
      if Relevant(t) {
        var d, rest := Desc(KindOf(t), data[pos..pos + data[pos]]), Stream(data, size, pos + data[pos]);
        hide Count;
        CountFront(d, rest, Config);
        CountFront(d, rest, Iface);
        CountFront(d, rest, Ep);
      } else {
        assert [] + Stream(data, size, pos + data[pos]) == Stream(data, size, pos + data[pos]);
      }
    }
  }

  method VerifyDescriptors(data: seq<Octet>, size: nat) returns (ok: bool, configs: nat, ifaces: nat, eps: nat)
    requires Walkable(data, size, 0)
    ensures ok <==> Verdict(data, size, 0)
    ensures ok ==> configs == Count(Stream(data, size, 0), Config)
                   && ifaces == Count(Stream(data, size, 0), Iface) && eps == Count(Stream(data, size, 0), Ep)
  {
    configs, ifaces, eps := 0, 0, 0;
    var pos := 0;
    while pos < size
      invariant Counted(data, size, pos, configs, ifaces, eps)
      decreases size - pos
    {
      hide Count, Stream;
      var t, length := data[pos + 1], data[pos];
      CountedStep(data, size, pos, configs, ifaces, eps, t);
      if t == USB_DESC_CONFIG {
        if length != Length(Config) {
          return false, configs, ifaces, eps;
        }
        configs := configs + 1;
      } else if t == USB_DESC_IFACE {
        if length != Length(Iface) {
          return false, configs, ifaces, eps;
        }
        ifaces := ifaces + 1;
      } else if t == USB_DESC_EP {
        if length != Length(Ep) {
          return false, configs, ifaces, eps;
        }
        eps := eps + 1;
      }
      pos := pos + length;
    }
    ok := pos == size;
  }

  lemma RootedMore(done: seq<Desc>, d: Desc, rest: seq<Desc>)
    requires Rooted(done)
    ensures Rooted(done + [d])
            <==> (d.kind == Iface ==> Count(done, Config) > 0) && (d.kind == Ep ==> Count(done, Iface) > 0)
    ensures !Rooted(done + [d]) ==> !Rooted(done + [d] + rest)
  {
    var a := done + [d];
    assert a[..|done|] == done && (a + rest)[..|done|] == done;
    assert a[|done|] == d && (a + rest)[|done|] == d;
    forall k | 0 <= k < |done|
      ensures a[k] == done[k] && a[..k] == done[..k]
    {
    }
  }

  // The bytes an endpoint record is filled with beyond its descriptor.
  ghost function Tails(data: seq<Octet>, size: nat, pos: nat): seq<seq<Octet>>
    requires Walkable(data, size, pos) && Verdict(data, size, pos)
    decreases size - pos
  {
    VerdictInside(data, size, pos);
    if pos >= size then []
    else (if data[pos + 1] == USB_DESC_EP then [data[pos + 7..pos + 12]] else []) + Tails(data, size, pos + data[pos])
  }

  class UsbDev {
    var configs: seq<CfgRec>
    var ifaces: seq<IfRec>
    var eps: seq<EpRec>
    var numConfigs: nat
    var descTotalSize: nat

    constructor ()
      ensures numConfigs == 0
    {
      configs, ifaces, eps, numConfigs, descTotalSize := [], [], [], 0, 0;
    }

    // The part of the buffer that has been filled in.
    ghost function View(c: nat, i: nat, e: nat): Tree
      reads this
      requires c <= |configs| && i <= |ifaces| && e <= |eps|
    {
      Tree(configs[..c], ifaces[..i], eps[..e])
    }

    // usbc_alloc_descriptors; `memory` says whether the heap has room
    method AllocDescriptors(c: nat, i: nat, e: nat, memory: bool) returns (ok: bool)
      modifies this
      ensures ok == memory && numConfigs == old(numConfigs)
      ensures ok ==> |configs| == c && |ifaces| == i && |eps| == e && descTotalSize == Total(c, i, e)
    {
      if !memory {
        return false;
      }
      configs := seq(c, _ => CfgRec([], 0, 0));
      ifaces := seq(i, _ => IfRec([], 0, 0));
      eps := seq(e, _ => EpRec([], []));
      descTotalSize := Total(c, i, e);
      ok := true;
    }

    // A configuration descriptor: copied, with no interface yet
    method PutConfig(c: nat, ghost i: nat, ghost e: nat, desc: seq<Octet>)
      requires c < |configs| && i <= |ifaces| && e <= |eps|
      modifies this`configs, this`numConfigs
      ensures |configs| == old(|configs|) && numConfigs == old(numConfigs) + 1
      ensures exists r: CfgRec :: r.desc == desc && r.num == 0 && View(c + 1, i, e) == AddConfig(old(View(c, i, e)), r)
    {
      ghost var t := View(c, i, e);
      var r := configs[c].(desc := desc, num := 0);
      configs := configs[c := r];
      numConfigs := numConfigs + 1;
      assert View(c + 1, i, e) == AddConfig(t, r);
    }

    // An interface descriptor; without a configuration before it the parse fails
    method PutIface(ghost c: nat, i: nat, ghost e: nat, desc: seq<Octet>, lastCfg: Option<nat>) returns (ok: bool)
      requires c <= |configs| && i < |ifaces| && e <= |eps| && lastCfg == if c == 0 then None else Some(c - 1)
      modifies this`configs, this`ifaces
      ensures |configs| == old(|configs|) && |ifaces| == old(|ifaces|) && (ok <==> c > 0)
      ensures ok ==>
                exists r: IfRec :: r.desc == desc && r.num == 0 && View(c, i + 1, e) == AddIface(old(View(c, i, e)), r)
    {
      ghost var t := View(c, i, e);
      var r := ifaces[i].(desc := desc, num := 0);
      ifaces := ifaces[i := r];
      if lastCfg == None {
        return false;
      }
      var last := configs[lastCfg.value];
      if last.num == 0 {
        last := last.(first := i);
      }
      configs := configs[lastCfg.value := last.(num := last.num + 1)];
      ok := true;
      assert View(c, i + 1, e) == AddIface(t, r);
    }

    // An endpoint descriptor; without an interface before it the parse fails
    method PutEp(ghost c: nat, ghost i: nat, e: nat, desc: seq<Octet>, tail: seq<Octet>, lastIface: Option<nat>)
      returns (ok: bool)
      requires c <= |configs| && i <= |ifaces| && e < |eps| && lastIface == if i == 0 then None else Some(i - 1)
      modifies this`ifaces, this`eps
      ensures |ifaces| == old(|ifaces|) && |eps| == old(|eps|) && (ok <==> i > 0)
      ensures ok ==> View(c, i, e + 1) == AddEp(old(View(c, i, e)), EpRec(desc, tail))
    {
      ghost var t := View(c, i, e);
      eps := eps[e := EpRec(desc, tail)];
      if lastIface == None {
        return false;
      }
      var last := ifaces[lastIface.value];
      if last.num == 0 {
        last := last.(first := e);
      }
      ifaces := ifaces[lastIface.value := last.(num := last.num + 1)];
      ok := true;
      assert View(c, i, e + 1) == AddEp(t, EpRec(desc, tail));
    }

    // What the parse has done when the walk has reached `pos`.
    ghost predicate Reached(data: seq<Octet>, size: nat, pos: nat, done: seq<Desc>, tails: seq<seq<Octet>>, c: nat,
                            i: nat, e: nat)
      reads this
    {
      && Walkable(data, size, 0) && Verdict(data, size, 0) && Walkable(data, size, pos) && Verdict(data, size, pos)
      && Stream(data, size, 0) == done + Stream(data, size, pos)
        && Tails(data, size, 0) == tails + Tails(data, size, pos)
      && c <= |configs| == Count(Stream(data, size, 0), Config) && i <= |ifaces| == Count(Stream(data, size, 0), Iface)
      && e <= |eps| == Count(Stream(data, size, 0), Ep)
      && Parsed(View(c, i, e), done) && Rooted(done) && numConfigs == c
      && |tails| == e && forall k :: 0 <= k < e ==> eps[k].tail == tails[k]
    }

    // The next relevant descriptor has room in the buffer, and is of its proper length.
    lemma Room(data: seq<Octet>, size: nat, pos: nat, done: seq<Desc>, tails: seq<seq<Octet>>, c: nat, i: nat, e: nat)
      returns (d: Desc)
      requires Reached(data, size, pos, done, tails, c, i, e) && pos < size && Relevant(data[pos + 1])
      ensures pos + 12 <= |data| && data[pos] == Length(d.kind)
              && d == Desc(KindOf(data[pos + 1]), data[pos..pos + data[pos]])
      ensures d.kind == Config ==> c < |configs|
      ensures d.kind == Iface ==> i < |ifaces|
      ensures d.kind == Ep ==> e < |eps|
      ensures c == Count(done, Config) && i == Count(done, Iface) && e == Count(done, Ep)
      ensures Stream(data, size, 0) == done + [d] + Stream(data, size, pos + data[pos])
    {
      hide Rooted, Tails, Sliced, Flatten, Nested, Filed;
      StreamStep(data, size, pos);
      var rest := Stream(data, size, pos + data[pos]);
      d := Desc(KindOf(data[pos + 1]), data[pos..pos + data[pos]]);
      assert done + ([d] + rest) == done + [d] + rest;
      hide Stream;
      CountConcat(done, [d] + rest, d.kind);
      CountFront(d, rest, d.kind);
    }

    // The walk moves past a descriptor of another kind.
    lemma Skip(data: seq<Octet>, size: nat, pos: nat, done: seq<Desc>, tails: seq<seq<Octet>>, c: nat, i: nat, e: nat)
      requires Reached(data, size, pos, done, tails, c, i, e) && pos < size && !Relevant(data[pos + 1])
      ensures Reached(data, size, pos + data[pos], done, tails, c, i, e)
    {
      hide Rooted, Parsed;
      StreamStep(data, size, pos);
      assert Stream(data, size, pos) == Stream(data, size, pos + data[pos]);
      assert Tails(data, size, pos) == Tails(data, size, pos + data[pos]);
    }

    lemma TailsStep(data: seq<Octet>, size: nat, pos: nat)
      requires Walkable(data, size, pos) && Verdict(data, size, pos) && pos < size && Relevant(data[pos + 1])
      ensures Walkable(data, size, pos + data[pos]) && Verdict(data, size, pos + data[pos])
      ensures Tails(data, size, pos) ==
              (if data[pos + 1] == USB_DESC_EP then [data[pos + 7..pos + 12]] else [])
                + Tails(data, size, pos + data[pos])
    {
    }

    method StepConfig(data: seq<Octet>, size: nat, pos: nat, ghost done: seq<Desc>, ghost tails: seq<seq<Octet>>,
                      c: nat, ghost i: nat, ghost e: nat)
      returns (ghost done': seq<Desc>)
      requires Reached(data, size, pos, done, tails, c, i, e) && pos < size && data[pos + 1] == USB_DESC_CONFIG
      modifies this`configs, this`numConfigs
      ensures Reached(data, size, pos + data[pos], done', tails, c + 1, i, e)
    {
      hide Rooted, Parsed, Walkable, Verdict, Stream, Tails, Count;
      ghost var t := View(c, i, e);
      ghost var d := Room(data, size, pos, done, tails, c, i, e);
      TailsStep(data, size, pos);
      PutConfig(c, i, e, data[pos..pos + Length(Config)]);
      ghost var r: CfgRec :| r.desc == d.bytes && r.num == 0 && View(c + 1, i, e) == AddConfig(t, r);
      TakeConfig(t, done, r);
      RootedMore(done, d, Stream(data, size, pos + data[pos]));
      done' := done + [d];
      assert [] + Tails(data, size, pos + data[pos]) == Tails(data, size, pos + data[pos]);
    }

    method StepIface(data: seq<Octet>, size: nat, pos: nat, ghost done: seq<Desc>, ghost tails: seq<seq<Octet>>,
                     ghost c: nat, i: nat, ghost e: nat, lastCfg: Option<nat>)
      returns (ok: bool, ghost done': seq<Desc>)
      requires Reached(data, size, pos, done, tails, c, i, e) && pos < size && data[pos + 1] == USB_DESC_IFACE
      requires lastCfg == if c == 0 then None else Some(c - 1)
      modifies this`configs, this`ifaces
      ensures ok ==> Reached(data, size, pos + data[pos], done', tails, c, i + 1, e)
      ensures !ok ==> !Rooted(Stream(data, size, 0))
    {
      hide Rooted, Parsed, Walkable, Verdict, Stream, Tails, Count;
      ghost var t := View(c, i, e);
      ghost var d := Room(data, size, pos, done, tails, c, i, e);
      TailsStep(data, size, pos);
      RootedMore(done, d, Stream(data, size, pos + data[pos]));
      ok := PutIface(c, i, e, data[pos..pos + Length(Iface)], lastCfg);
      done' := done + [d];
      if ok {
        ghost var r: IfRec :| r.desc == d.bytes && r.num == 0 && View(c, i + 1, e) == AddIface(t, r);
        CfgCount(t, done);
        TakeIface(t, done, r);
        assert [] + Tails(data, size, pos + data[pos]) == Tails(data, size, pos + data[pos]);
      }
    }

    lemma CfgCount(t: Tree, done: seq<Desc>)
      requires Parsed(t, done)
      ensures |t.cfgs| == Count(done, Config) && |t.ifs| == Count(done, Iface) && |t.eps| == Count(done, Ep)
    {
    }

    method StepEp(data: seq<Octet>, size: nat, pos: nat, ghost done: seq<Desc>, ghost tails: seq<seq<Octet>>,
                  ghost c: nat, ghost i: nat, e: nat, lastIface: Option<nat>)
      returns (ok: bool, ghost done': seq<Desc>, ghost tails': seq<seq<Octet>>)
      requires Reached(data, size, pos, done, tails, c, i, e) && pos < size && data[pos + 1] == USB_DESC_EP
      requires lastIface == if i == 0 then None else Some(i - 1)
      modifies this`ifaces, this`eps
      ensures ok ==> Reached(data, size, pos + data[pos], done', tails', c, i, e + 1)
      ensures !ok ==> !Rooted(Stream(data, size, 0))
    {
      hide Rooted, Parsed, Walkable, Verdict, Stream, Tails, Count;
      ghost var t := View(c, i, e);
      ghost var d := Room(data, size, pos, done, tails, c, i, e);
      TailsStep(data, size, pos);
      RootedMore(done, d, Stream(data, size, pos + data[pos]));
      var desc, tail := data[pos..pos + Length(Ep)], data[pos + Length(Ep)..pos + RecordSize(Ep)];
      ok := PutEp(c, i, e, desc, tail, lastIface);
      done', tails' := done + [d], tails + [tail];
      if ok {
        CfgCount(t, done);
        TakeEp(t, done, EpRec(desc, tail));
        assert tails + ([tail] + Tails(data, size, pos + data[pos])) == tails' + Tails(data, size, pos + data[pos]);
        assert forall k :: 0 <= k < e ==> View(c, i, e + 1).eps[k] == t.eps[k];
        assert View(c, i, e + 1).eps[e] == EpRec(desc, tail);
      }
    }

    method ParseDescriptors(data: seq<Octet>, size: nat, memory: bool) returns (ok: bool)
      requires Walkable(data, size, 0) && numConfigs == 0
      modifies this
      ensures ok <==> Verdict(data, size, 0) && memory && Rooted(Stream(data, size, 0))
      ensures ok ==> numConfigs == |configs| && Sliced(Tree(configs, ifaces, eps))
      ensures ok ==> EpsInside(Tree(configs, ifaces, eps)) && IfsInside(Tree(configs, ifaces, eps))
      ensures ok ==> Filed(Tree(configs, ifaces, eps), Stream(data, size, 0))
      ensures ok ==>
                (Flatten(Tree(configs, ifaces, eps), |configs|) == Stream(data, size, 0)
                 <==> Nested(Stream(data, size, 0)))
      ensures ok ==> |eps| == |Tails(data, size, 0)| && forall k :: 0 <= k < |eps| ==>
                eps[k].tail == Tails(data, size, 0)[k]
    {
      hide Rooted, Parsed, Walkable, Verdict, Stream, Tails, Count, Sliced, Flatten, Nested, Filed, Reached;
      var c, i, e;
      ok, c, i, e := VerifyDescriptors(data, size);
      if !ok {
        return;
      }
      ok := AllocDescriptors(c, i, e, memory);
      if !ok {
        return;
      }
      c, i, e := 0, 0, 0;
      var lastCfg: Option<nat>, lastIface: Option<nat> := None, None;
      var pos := 0;
      ghost var done: seq<Desc>, tails: seq<seq<Octet>> := [], [];
      Begin(data, size);
      while pos < size
        invariant Reached(data, size, pos, done, tails, c, i, e)
        invariant lastCfg == if c == 0 then None else Some(c - 1)
        invariant lastIface == if i == 0 then None else Some(i - 1)
        decreases size - pos
      {
        Readable(data, size, pos, done, tails, c, i, e);
        var t := data[pos + 1];
        if t == USB_DESC_CONFIG {
          done := StepConfig(data, size, pos, done, tails, c, i, e);
          lastCfg := Some(c);
          c := c + 1;
        } else if t == USB_DESC_IFACE {
          ok, done := StepIface(data, size, pos, done, tails, c, i, e, lastCfg);
          if !ok {
            return;
          }
          lastIface := Some(i);
          i := i + 1;
        } else if t == USB_DESC_EP {
          ok, done, tails := StepEp(data, size, pos, done, tails, c, i, e, lastIface);
          if !ok {
            return;
          }
          e := e + 1;
        } else {
          Skip(data, size, pos, done, tails, c, i, e);
        }
        pos := pos + data[pos];
      }
      Finish(data, size, pos, done, tails, c, i, e);
      ok := true;
    }

    lemma Begin(data: seq<Octet>, size: nat)
      requires Walkable(data, size, 0) && Verdict(data, size, 0) && numConfigs == 0
      requires |configs| == Count(Stream(data, size, 0), Config) && |ifaces| == Count(Stream(data, size, 0), Iface)
      requires |eps| == Count(Stream(data, size, 0), Ep)
      ensures Reached(data, size, 0, [], [], 0, 0, 0)
    {
      assert [] + Stream(data, size, 0) == Stream(data, size, 0);
      assert [] + Tails(data, size, 0) == Tails(data, size, 0);
    }

    lemma Readable(data: seq<Octet>, size: nat, pos: nat, done: seq<Desc>, tails: seq<seq<Octet>>, c: nat, i: nat,
                   e: nat)
      requires Reached(data, size, pos, done, tails, c, i, e) && pos < size
      ensures pos + 1 < |data| && data[pos] > 0
    {
    }

    lemma Finish(data: seq<Octet>, size: nat, pos: nat, done: seq<Desc>, tails: seq<seq<Octet>>, c: nat, i: nat, e: nat)
      requires Reached(data, size, pos, done, tails, c, i, e) && pos >= size
      ensures Walkable(data, size, 0) && Verdict(data, size, 0) && Rooted(Stream(data, size, 0))
              && numConfigs == |configs|
      ensures Parsed(Tree(configs, ifaces, eps), Stream(data, size, 0))
      ensures EpsInside(Tree(configs, ifaces, eps)) && IfsInside(Tree(configs, ifaces, eps))
              && Sliced(Tree(configs, ifaces, eps))
      ensures Filed(Tree(configs, ifaces, eps), Stream(data, size, 0))
      ensures Flatten(Tree(configs, ifaces, eps), |configs|) == Stream(data, size, 0) <==> Nested(Stream(data, size, 0))
      ensures |eps| == |Tails(data, size, 0)| && forall k :: 0 <= k < |eps| ==> eps[k].tail == Tails(data, size, 0)[k]
    {
      hide Flatten, Nested, Sliced, Rooted, Filed;
      assert Stream(data, size, pos) == [] && Tails(data, size, pos) == [];
      assert done + [] == done && tails + [] == tails;
      assert configs[..|configs|] == configs && ifaces[..|ifaces|] == ifaces && eps[..|eps|] == eps;
      RoundTrip(Tree(configs, ifaces, eps), done);
    }
  }
}
