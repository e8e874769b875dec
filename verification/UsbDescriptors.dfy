// Descriptor parsing of kernel/src/usb/usb.c: the flat stream a device answers with (USB 2.0,
// sections 9.4.3 and 9.6) becomes a tree of configurations, interfaces and endpoints.
module UsbDescriptors {
  import opened Octets

  const USB_DESC_CONFIG: Octet := 0x02
  const USB_DESC_IFACE: Octet := 0x04
  const USB_DESC_EP: Octet := 0x05

  datatype Kind = Config | Iface | Ep

  datatype Desc = Desc(kind: Kind, bytes: seq<Octet>)

  // Length of a descriptor of a kind, and size of the record that holds it on the host.
  function Length(k: Kind): nat { match k case Config => 9 case Iface => 9 case Ep => 7 }

  function RecordSize(k: Kind): nat { match k case Config => 24 case Iface => 40 case Ep => 12 }

  predicate Relevant(t: Octet) { t == USB_DESC_CONFIG || t == USB_DESC_IFACE || t == USB_DESC_EP }

  function KindOf(t: Octet): Kind
    requires Relevant(t)
  {
    if t == USB_DESC_CONFIG then Config else if t == USB_DESC_IFACE then Iface else Ep
  }

  // ---------- the stream ----------

  // The walk from `pos` finds a length and a type at every step, and moves on. An endpoint
  // record is filled with more bytes than its descriptor has: they are read from the buffer too.
  ghost predicate Walkable(data: seq<Octet>, size: nat, pos: nat)
    decreases size - pos
  {
    size + 5 <= |data| && (pos < size ==> pos + 1 < size && data[pos] >= 1 && Walkable(data, size, pos + data[pos]))
  }

  // The configuration, interface and endpoint descriptors from `pos` on, in order.
  ghost function Stream(data: seq<Octet>, size: nat, pos: nat): seq<Desc>
    requires Walkable(data, size, pos) && Verdict(data, size, pos)
    decreases size - pos
  {
    VerdictInside(data, size, pos);
    if pos >= size then []
    else (if Relevant(data[pos + 1]) then [Desc(KindOf(data[pos + 1]), data[pos..pos + data[pos]])] else [])
         + Stream(data, size, pos + data[pos])
  }

  // What the verifier accepts: descriptors of these kinds have their proper length, and the
  // last descriptor ends where the stream ends.
  ghost predicate Verdict(data: seq<Octet>, size: nat, pos: nat)
    requires Walkable(data, size, pos)
    decreases size - pos
  {
    if pos >= size then pos == size
    else
      && (Relevant(data[pos + 1]) ==> data[pos] == Length(KindOf(data[pos + 1])))
      && Verdict(data, size, pos + data[pos])
  }

  lemma {:induction false} VerdictInside(data: seq<Octet>, size: nat, pos: nat)
    requires Walkable(data, size, pos) && Verdict(data, size, pos)
    ensures pos <= size && (pos < size ==> pos + data[pos] <= size)
    decreases size - pos
  {
    if pos < size { VerdictInside(data, size, pos + data[pos]); }
  }

  ghost function Count(s: seq<Desc>, k: Kind): nat {
    if s == [] then 0 else Count(s[..|s| - 1], k) + if s[|s| - 1].kind == k then 1 else 0
  }

  lemma {:induction false} CountConcat(a: seq<Desc>, b: seq<Desc>, k: Kind)
    ensures Count(a + b, k) == Count(a, k) + Count(b, k)
  {
    if b == [] {
      assert a + b == a;
    } else {
      assert (a + b)[..|a + b| - 1] == a + b[..|b| - 1];
      CountConcat(a, b[..|b| - 1], k);
    }
  }

  lemma {:induction false} CountSome(s: seq<Desc>, k: Kind)
    ensures Count(s, k) > 0 <==> exists i :: 0 <= i < |s| && s[i].kind == k
  {
    if s != [] {
      CountSome(s[..|s| - 1], k);
      if i :| 0 <= i < |s| && s[i].kind == k && i < |s| - 1 { assert s[..|s| - 1][i].kind == k; }
    }
  }

  // ---------- offsets ----------

  // usbc_get_desc_offset
  function GetDescOffset(configs: nat, ifaces: nat, k: Kind, index: nat): nat {
    match k
    case Config => index * RecordSize(Config)
    case Iface => configs * RecordSize(Config) + index * RecordSize(Iface)
    case Ep => configs * RecordSize(Config) + ifaces * RecordSize(Iface) + index * RecordSize(Ep)
  }

  function Total(configs: nat, ifaces: nat, eps: nat): nat {
    configs * RecordSize(Config) + ifaces * RecordSize(Iface) + eps * RecordSize(Ep)
  }

  function Limit(configs: nat, ifaces: nat, eps: nat, k: Kind): nat {
    match k case Config => configs case Iface => ifaces case Ep => eps
  }

  // Every record lies inside the allocation.
  lemma RecordInside(configs: nat, ifaces: nat, eps: nat, k: Kind, index: nat)
    requires index < Limit(configs, ifaces, eps, k)
    ensures GetDescOffset(configs, ifaces, k, index) + RecordSize(k) <= Total(configs, ifaces, eps)
  {
  }

  // Different records do not overlap.
  lemma RecordsDisjoint(configs: nat, ifaces: nat, eps: nat, k: Kind, i: nat, l: Kind, j: nat)
    requires i < Limit(configs, ifaces, eps, k) && j < Limit(configs, ifaces, eps, l) && (k != l || i != j)
    ensures var a, b := GetDescOffset(configs, ifaces, k, i), GetDescOffset(configs, ifaces, l, j);
            a + RecordSize(k) <= b || b + RecordSize(l) <= a
  {
  }

  // ---------- the tree in the buffer ----------

  // first and num: the slice of the next level that belongs to the record. The pointer is set
  // when the first child is found.
  datatype CfgRec = CfgRec(desc: seq<Octet>, first: nat, num: nat)

  datatype IfRec = IfRec(desc: seq<Octet>, first: nat, num: nat)

  // tail: the bytes behind the descriptor in the record, where the pipe pointer is.
  datatype EpRec = EpRec(desc: seq<Octet>, tail: seq<Octet>)

  datatype Tree = Tree(cfgs: seq<CfgRec>, ifs: seq<IfRec>, eps: seq<EpRec>)

  // How many children come before record n.
  ghost function CfgStart(cfgs: seq<CfgRec>, n: nat): nat
    requires n <= |cfgs|
  {
    if n == 0 then 0 else CfgStart(cfgs, n - 1) + cfgs[n - 1].num
  }

  ghost function IfStart(ifs: seq<IfRec>, n: nat): nat
    requires n <= |ifs|
  {
    if n == 0 then 0 else IfStart(ifs, n - 1) + ifs[n - 1].num
  }

  // Child slices are consecutive, disjoint and exhaustive.
  ghost predicate Sliced(t: Tree) {
    && (forall k :: 0 <= k < |t.cfgs| ==> t.cfgs[k].num > 0 ==> t.cfgs[k].first == CfgStart(t.cfgs, k))
    && (forall k :: 0 <= k < |t.ifs| ==> t.ifs[k].num > 0 ==> t.ifs[k].first == IfStart(t.ifs, k))
    && CfgStart(t.cfgs, |t.cfgs|) == |t.ifs| && IfStart(t.ifs, |t.ifs|) == |t.eps|
  }

  ghost function EpsFrom(t: Tree, lo: nat, n: nat): seq<Desc>
    requires lo + n <= |t.eps|
  {
    if n == 0 then [] else EpsFrom(t, lo, n - 1) + [Desc(Ep, t.eps[lo + n - 1].desc)]
  }

  // What a reader finds who follows the pointers.
  ghost function IfaceOut(t: Tree, k: nat): seq<Desc>
    requires k < |t.ifs| && (t.ifs[k].num > 0 ==> t.ifs[k].first + t.ifs[k].num <= |t.eps|)
  {
    [Desc(Iface, t.ifs[k].desc)] + if t.ifs[k].num == 0 then [] else EpsFrom(t, t.ifs[k].first, t.ifs[k].num)
  }

  ghost predicate EpsInside(t: Tree) {
    forall k :: 0 <= k < |t.ifs| ==> t.ifs[k].num > 0 ==> t.ifs[k].first + t.ifs[k].num <= |t.eps|
  }

  ghost function IfacesFrom(t: Tree, lo: nat, n: nat): seq<Desc>
    requires lo + n <= |t.ifs| && EpsInside(t)
  {
    if n == 0 then [] else IfacesFrom(t, lo, n - 1) + IfaceOut(t, lo + n - 1)
  }

  ghost predicate IfsInside(t: Tree) {
    forall k :: 0 <= k < |t.cfgs| ==> t.cfgs[k].num > 0 ==> t.cfgs[k].first + t.cfgs[k].num <= |t.ifs|
  }

  // The tree read out in the order of the stream: the first n configurations.
  ghost function Flatten(t: Tree, n: nat): seq<Desc>
    requires n <= |t.cfgs| && EpsInside(t) && IfsInside(t)
  {
    if n == 0 then []
    else Flatten(t, n - 1) + [Desc(Config, t.cfgs[n - 1].desc)]
         + if t.cfgs[n - 1].num == 0 then [] else IfacesFrom(t, t.cfgs[n - 1].first, t.cfgs[n - 1].num)
  }

  lemma {:induction false} CfgStartGrows(cfgs: seq<CfgRec>, n: nat, m: nat)
    requires n <= m <= |cfgs|
    ensures CfgStart(cfgs, n) <= CfgStart(cfgs, m)
  {
    if n < m { CfgStartGrows(cfgs, n, m - 1); }
  }

  lemma {:induction false} IfStartGrows(ifs: seq<IfRec>, n: nat, m: nat)
    requires n <= m <= |ifs|
    ensures IfStart(ifs, n) <= IfStart(ifs, m)
  {
    if n < m { IfStartGrows(ifs, n, m - 1); }
  }

  lemma SlicedInside(t: Tree)
    requires Sliced(t)
    ensures EpsInside(t) && IfsInside(t)
  {
    hide CfgStart, IfStart;
    forall k | 0 <= k < |t.cfgs| && t.cfgs[k].num > 0
      ensures t.cfgs[k].first + t.cfgs[k].num <= |t.ifs|
    {
      StartStep(t.cfgs, k);
      CfgStartGrows(t.cfgs, k + 1, |t.cfgs|);
    }
    forall k | 0 <= k < |t.ifs| && t.ifs[k].num > 0
      ensures t.ifs[k].first + t.ifs[k].num <= |t.eps|
    {
      IfStartStep(t.ifs, k);
      IfStartGrows(t.ifs, k + 1, |t.ifs|);
    }
  }

  lemma StartStep(cfgs: seq<CfgRec>, n: nat)
    requires n < |cfgs|
    ensures CfgStart(cfgs, n + 1) == CfgStart(cfgs, n) + cfgs[n].num
  {
  }

  lemma IfStartStep(ifs: seq<IfRec>, n: nat)
    requires n < |ifs|
    ensures IfStart(ifs, n + 1) == IfStart(ifs, n) + ifs[n].num
  {
  }

  lemma NotTwice(cfgs: seq<CfgRec>, i: nat, k: nat, l: nat)
    requires k < |cfgs| && l < |cfgs| && k != l && CfgStart(cfgs, k) <= i < CfgStart(cfgs, k) + cfgs[k].num
    requires cfgs[l].first == CfgStart(cfgs, l)
    ensures !(cfgs[l].first <= i < cfgs[l].first + cfgs[l].num)
  {
    hide CfgStart;
    StartStep(cfgs, k);
    StartStep(cfgs, l);
    if l < k {
      CfgStartGrows(cfgs, l + 1, k);
    } else {
      CfgStartGrows(cfgs, k + 1, l);
    }
  }

  lemma {:induction false} FindParent(cfgs: seq<CfgRec>, i: nat, n: nat) returns (k: nat)
    requires n <= |cfgs| && i < CfgStart(cfgs, n)
    ensures k < n && CfgStart(cfgs, k) <= i < CfgStart(cfgs, k) + cfgs[k].num
  {
    if i >= CfgStart(cfgs, n - 1) {
      k := n - 1;
    } else {
      k := FindParent(cfgs, i, n - 1);
    }
  }

  // Every interface belongs to one configuration: slices do not overlap and leave none out.
  lemma OneParent(t: Tree, i: nat) returns (k: nat)
    requires Sliced(t) && i < |t.ifs|
    ensures k < |t.cfgs| && t.cfgs[k].num > 0 && t.cfgs[k].first <= i < t.cfgs[k].first + t.cfgs[k].num
    ensures forall l :: 0 <= l < |t.cfgs| && l != k && t.cfgs[l].num > 0 ==>
              !(t.cfgs[l].first <= i < t.cfgs[l].first + t.cfgs[l].num)
  {
    k := FindParent(t.cfgs, i, |t.cfgs|);
    forall l | 0 <= l < |t.cfgs| && l != k && t.cfgs[l].num > 0
      ensures !(t.cfgs[l].first <= i < t.cfgs[l].first + t.cfgs[l].num)
    {
      NotTwice(t.cfgs, i, k, l);
    }
  }

  lemma NotTwiceEp(ifs: seq<IfRec>, i: nat, k: nat, l: nat)
    requires k < |ifs| && l < |ifs| && k != l && IfStart(ifs, k) <= i < IfStart(ifs, k) + ifs[k].num
    requires ifs[l].first == IfStart(ifs, l)
    ensures !(ifs[l].first <= i < ifs[l].first + ifs[l].num)
  {
    hide IfStart;
    IfStartStep(ifs, k);
    IfStartStep(ifs, l);
    if l < k {
      IfStartGrows(ifs, l + 1, k);
    } else {
      IfStartGrows(ifs, k + 1, l);
    }
  }

  lemma {:induction false} FindIface(ifs: seq<IfRec>, i: nat, n: nat) returns (k: nat)
    requires n <= |ifs| && i < IfStart(ifs, n)
    ensures k < n && IfStart(ifs, k) <= i < IfStart(ifs, k) + ifs[k].num
  {
    if i >= IfStart(ifs, n - 1) {
      k := n - 1;
    } else {
      k := FindIface(ifs, i, n - 1);
    }
  }

  // Every endpoint belongs to one interface.
  lemma OneIface(t: Tree, e: nat) returns (k: nat)
    requires Sliced(t) && e < |t.eps|
    ensures k < |t.ifs| && t.ifs[k].num > 0 && t.ifs[k].first <= e < t.ifs[k].first + t.ifs[k].num
    ensures forall l :: 0 <= l < |t.ifs| && l != k && t.ifs[l].num > 0 ==>
              !(t.ifs[l].first <= e < t.ifs[l].first + t.ifs[l].num)
  {
    k := FindIface(t.ifs, e, |t.ifs|);
    forall l | 0 <= l < |t.ifs| && l != k && t.ifs[l].num > 0
      ensures !(t.ifs[l].first <= e < t.ifs[l].first + t.ifs[l].num)
    {
      NotTwiceEp(t.ifs, e, k, l);
    }
  }

  // ---------- building the tree ----------

  function Opened(r: CfgRec, at: nat): CfgRec { r.(first := if r.num == 0 then at else r.first, num := r.num + 1) }

  function Extended(r: IfRec, at: nat): IfRec { r.(first := if r.num == 0 then at else r.first, num := r.num + 1) }

  ghost function AddConfig(t: Tree, r: CfgRec): Tree { t.(cfgs := t.cfgs + [r]) }

  ghost function AddIface(t: Tree, r: IfRec): Tree
    requires t.cfgs != []
  {
    var k := |t.cfgs| - 1;
    t.(cfgs := t.cfgs[k := Opened(t.cfgs[k], |t.ifs|)], ifs := t.ifs + [r])
  }

  ghost function AddEp(t: Tree, r: EpRec): Tree
    requires t.ifs != []
  {
    var k := |t.ifs| - 1;
    t.(ifs := t.ifs[k := Extended(t.ifs[k], |t.eps|)], eps := t.eps + [r])
  }

  lemma {:induction false} CfgStartSame(a: seq<CfgRec>, b: seq<CfgRec>, n: nat)
    requires n <= |a| && n <= |b| && forall k :: 0 <= k < n ==> a[k].num == b[k].num
    ensures CfgStart(a, n) == CfgStart(b, n)
  {
    if n > 0 { CfgStartSame(a, b, n - 1); }
  }

  lemma CfgStartsSame(a: seq<CfgRec>, b: seq<CfgRec>, n: nat)
    requires n <= |a| && n <= |b| && forall k :: 0 <= k < n ==> a[k].num == b[k].num
    ensures forall k :: 0 <= k <= n ==> CfgStart(a, k) == CfgStart(b, k)
  {
    hide CfgStart;
    forall k | 0 <= k <= n
      ensures CfgStart(a, k) == CfgStart(b, k)
    {
      CfgStartSame(a, b, k);
    }
  }

  lemma {:induction false} IfStartSame(a: seq<IfRec>, b: seq<IfRec>, n: nat)
    requires n <= |a| && n <= |b| && forall k :: 0 <= k < n ==> a[k].num == b[k].num
    ensures IfStart(a, n) == IfStart(b, n)
  {
    if n > 0 { IfStartSame(a, b, n - 1); }
  }

  lemma IfStartsSame(a: seq<IfRec>, b: seq<IfRec>, n: nat)
    requires n <= |a| && n <= |b| && forall k :: 0 <= k < n ==> a[k].num == b[k].num
    ensures forall k :: 0 <= k <= n ==> IfStart(a, k) == IfStart(b, k)
  {
    hide IfStart;
    forall k | 0 <= k <= n
      ensures IfStart(a, k) == IfStart(b, k)
    {
      IfStartSame(a, b, k);
    }
  }

  ghost predicate CfgSliced(cfgs: seq<CfgRec>, ifaces: nat) {
    (forall k :: 0 <= k < |cfgs| ==> cfgs[k].num > 0 ==> cfgs[k].first == CfgStart(cfgs, k))
      && CfgStart(cfgs, |cfgs|) == ifaces
  }

  ghost predicate IfSliced(ifs: seq<IfRec>, eps: nat) {
    (forall k :: 0 <= k < |ifs| ==> ifs[k].num > 0 ==> ifs[k].first == IfStart(ifs, k)) && IfStart(ifs, |ifs|) == eps
  }

  lemma CfgAppend(cfgs: seq<CfgRec>, n: nat, r: CfgRec)
    requires CfgSliced(cfgs, n) && r.num == 0
    ensures CfgSliced(cfgs + [r], n)
  {
    hide CfgStart;
    var c := cfgs + [r];
    CfgStartsSame(c, cfgs, |cfgs|);
    StartStep(c, |cfgs|);
  }

  lemma IfAppend(ifs: seq<IfRec>, n: nat, r: IfRec)
    requires IfSliced(ifs, n) && r.num == 0
    ensures IfSliced(ifs + [r], n)
  {
    hide IfStart;
    var c := ifs + [r];
    IfStartsSame(c, ifs, |ifs|);
    IfStartStep(c, |ifs|);
  }

  lemma CfgGrow(cfgs: seq<CfgRec>, n: nat)
    requires CfgSliced(cfgs, n) && cfgs != []
    ensures CfgSliced(cfgs[|cfgs| - 1 := Opened(cfgs[|cfgs| - 1], n)], n + 1)
  {
    hide CfgStart;
    var c := cfgs[|cfgs| - 1 := Opened(cfgs[|cfgs| - 1], n)];
    CfgStartsSame(c, cfgs, |cfgs| - 1);
    StartStep(c, |cfgs| - 1);
    StartStep(cfgs, |cfgs| - 1);
  }

  lemma IfGrow(ifs: seq<IfRec>, n: nat)
    requires IfSliced(ifs, n) && ifs != []
    ensures IfSliced(ifs[|ifs| - 1 := Extended(ifs[|ifs| - 1], n)], n + 1)
  {
    hide IfStart;
    var c := ifs[|ifs| - 1 := Extended(ifs[|ifs| - 1], n)];
    IfStartsSame(c, ifs, |ifs| - 1);
    IfStartStep(c, |ifs| - 1);
    IfStartStep(ifs, |ifs| - 1);
  }

  lemma SlicedParts(t: Tree)
    ensures Sliced(t) <==> CfgSliced(t.cfgs, |t.ifs|) && IfSliced(t.ifs, |t.eps|)
  {
  }

  lemma AddSliced(t: Tree)
    requires Sliced(t)
    ensures forall r: CfgRec :: r.num == 0 ==> Sliced(AddConfig(t, r))
    ensures forall r: IfRec :: r.num == 0 && t.cfgs != [] ==> Sliced(AddIface(t, r))
    ensures forall r: EpRec :: t.ifs != [] ==> Sliced(AddEp(t, r))
  {
    hide Sliced, CfgSliced, IfSliced;
    SlicedParts(t);
    forall r: CfgRec | r.num == 0
      ensures Sliced(AddConfig(t, r))
    {
      CfgAppend(t.cfgs, |t.ifs|, r);
      SlicedParts(AddConfig(t, r));
    }
    forall r: IfRec | r.num == 0 && t.cfgs != []
      ensures Sliced(AddIface(t, r))
    {
      CfgGrow(t.cfgs, |t.ifs|);
      IfAppend(t.ifs, |t.eps|, r);
      SlicedParts(AddIface(t, r));
    }
    forall r: EpRec | t.ifs != []
      ensures Sliced(AddEp(t, r))
    {
      IfGrow(t.ifs, |t.eps|);
      SlicedParts(AddEp(t, r));
    }
  }

  // ---------- reading the grown tree ----------

  // The trees agree on the first i interfaces and the first e endpoints.
  ghost predicate Agree(t: Tree, u: Tree, i: nat, e: nat) {
    && i <= |t.ifs| && i <= |u.ifs| && e <= |t.eps| && e <= |u.eps|
    && t.ifs[..i] == u.ifs[..i] && t.eps[..e] == u.eps[..e]
  }

  lemma {:induction false} EpsSame(t: Tree, u: Tree, i: nat, e: nat, lo: nat, n: nat)
    requires Agree(t, u, i, e) && lo + n <= e
    ensures EpsFrom(t, lo, n) == EpsFrom(u, lo, n)
  {
    if n > 0 {
      EpsSame(t, u, i, e, lo, n - 1);
      assert t.eps[..e][lo + n - 1] == u.eps[..e][lo + n - 1];
    }
  }

  lemma IfaceSame(t: Tree, u: Tree, i: nat, e: nat, k: nat)
    requires Agree(t, u, i, e) && k < i && (t.ifs[k].num > 0 ==> t.ifs[k].first + t.ifs[k].num <= e)
    ensures u.ifs[k] == t.ifs[k] && IfaceOut(t, k) == IfaceOut(u, k)
  {
    assert t.ifs[..i][k] == u.ifs[..i][k];
    if t.ifs[k].num > 0 { EpsSame(t, u, i, e, t.ifs[k].first, t.ifs[k].num); }
  }

  lemma {:induction false} IfacesSame(t: Tree, u: Tree, i: nat, e: nat, lo: nat, n: nat)
    requires Agree(t, u, i, e) && EpsInside(t) && EpsInside(u) && lo + n <= i
    requires forall k :: 0 <= k < i && t.ifs[k].num > 0 ==> t.ifs[k].first + t.ifs[k].num <= e
    ensures IfacesFrom(t, lo, n) == IfacesFrom(u, lo, n)
  {
    hide IfaceOut;
    if n > 0 {
      IfacesSame(t, u, i, e, lo, n - 1);
      IfaceSame(t, u, i, e, lo + n - 1);
    }
  }

  lemma {:induction false} FlattenSame(t: Tree, u: Tree, i: nat, e: nat, n: nat)
    requires Agree(t, u, i, e) && EpsInside(t) && EpsInside(u) && IfsInside(t) && IfsInside(u)
    requires n <= |t.cfgs| && n <= |u.cfgs| && t.cfgs[..n] == u.cfgs[..n]
    requires forall k :: 0 <= k < i && t.ifs[k].num > 0 ==> t.ifs[k].first + t.ifs[k].num <= e
    requires forall k :: 0 <= k < n && t.cfgs[k].num > 0 ==> t.cfgs[k].first + t.cfgs[k].num <= i
    ensures Flatten(t, n) == Flatten(u, n)
  {
    hide IfacesFrom;
    if n > 0 {
      assert t.cfgs[..n - 1] == t.cfgs[..n][..n - 1] && u.cfgs[..n - 1] == u.cfgs[..n][..n - 1];
      FlattenSame(t, u, i, e, n - 1);
      assert t.cfgs[n - 1] == t.cfgs[..n][n - 1] == u.cfgs[n - 1];
      if t.cfgs[n - 1].num > 0 { IfacesSame(t, u, i, e, t.cfgs[n - 1].first, t.cfgs[n - 1].num); }
    }
  }

  lemma FlattenConfig(t: Tree, r: CfgRec)
    requires Sliced(t) && r.num == 0
    ensures var u := AddConfig(t, r);
            && Sliced(u) && EpsInside(u) && IfsInside(u) && EpsInside(t) && IfsInside(t)
            && Flatten(u, |u.cfgs|) == Flatten(t, |t.cfgs|) + [Desc(Config, r.desc)]
  {
    hide Sliced;
    var u := AddConfig(t, r);
    AddSliced(t);
    SlicedInside(t);
    SlicedInside(u);
    FlattenSame(t, u, |t.ifs|, |t.eps|, |t.cfgs|);
  }

  lemma LastSlice(t: Tree)
    requires Sliced(t) && t.cfgs != [] && t.cfgs[|t.cfgs| - 1].num > 0
    ensures var c := t.cfgs[|t.cfgs| - 1];
            && c.first + c.num == |t.ifs|
            && forall k :: 0 <= k < |t.cfgs| - 1 && t.cfgs[k].num > 0 ==> t.cfgs[k].first + t.cfgs[k].num <= c.first
  {
    hide CfgStart, IfStart;
    var n := |t.cfgs| - 1;
    StartStep(t.cfgs, n);
    forall k | 0 <= k < n && t.cfgs[k].num > 0
      ensures t.cfgs[k].first + t.cfgs[k].num <= t.cfgs[n].first
    {
      StartStep(t.cfgs, k);
      CfgStartGrows(t.cfgs, k + 1, n);
    }
  }

  lemma LastEps(t: Tree)
    requires Sliced(t) && t.ifs != [] && t.ifs[|t.ifs| - 1].num > 0
    ensures t.ifs[|t.ifs| - 1].first + t.ifs[|t.ifs| - 1].num == |t.eps|
  {
  }

  lemma FlattenStep(t: Tree, n: nat)
    requires 0 < n <= |t.cfgs| && EpsInside(t) && IfsInside(t)
    ensures Flatten(t, n) == Flatten(t, n - 1) + [Desc(Config, t.cfgs[n - 1].desc)]
                             + if t.cfgs[n - 1].num == 0 then []
                               else IfacesFrom(t, t.cfgs[n - 1].first, t.cfgs[n - 1].num)
  {
  }

  lemma IfacesStep(t: Tree, lo: nat, n: nat)
    requires lo + n < |t.ifs| && EpsInside(t)
    ensures IfacesFrom(t, lo, n + 1) == IfacesFrom(t, lo, n) + IfaceOut(t, lo + n)
    ensures IfacesFrom(t, lo, 0) == []
  {
  }

  // An interface without endpoints yet, and one with an endpoint more.
  lemma IfaceEmpty(t: Tree, k: nat)
    requires k < |t.ifs| && t.ifs[k].num == 0
    ensures IfaceOut(t, k) == [Desc(Iface, t.ifs[k].desc)]
  {
  }

  lemma IfaceMore(t: Tree, u: Tree, k: nat, r: EpRec)
    requires k + 1 == |t.ifs| && u == AddEp(t, r) && (t.ifs[k].num > 0 ==> t.ifs[k].first + t.ifs[k].num == |t.eps|)
    ensures IfaceOut(u, k) == IfaceOut(t, k) + [Desc(Ep, r.desc)]
  {
    EpsSame(t, u, k, |t.eps|, u.ifs[k].first, t.ifs[k].num);
    EpsStep(u, u.ifs[k].first, t.ifs[k].num);
    hide EpsFrom;
    assert t.ifs[k].num == 0 ==> EpsFrom(u, u.ifs[k].first, 0) == [];
  }

  lemma EpsStep(t: Tree, lo: nat, n: nat)
    requires lo + n < |t.eps|
    ensures EpsFrom(t, lo, n + 1) == EpsFrom(t, lo, n) + [Desc(Ep, t.eps[lo + n].desc)]
    ensures EpsFrom(t, lo, 0) == []
  {
  }

  lemma FlattenIface(t: Tree, r: IfRec)
    requires Sliced(t) && r.num == 0 && t.cfgs != []
    ensures var u := AddIface(t, r);
            && Sliced(u) && EpsInside(u) && IfsInside(u) && EpsInside(t) && IfsInside(t)
            && Flatten(u, |u.cfgs|) == Flatten(t, |t.cfgs|) + [Desc(Iface, r.desc)]
  {
    hide Sliced, Flatten, IfacesFrom, IfaceOut;
    var u, n := AddIface(t, r), |t.cfgs| - 1;
    AddSliced(t);
    SlicedInside(t);
    SlicedInside(u);
    FlattenSame(t, u, |t.ifs|, |t.eps|, n);
    FlattenStep(t, n + 1);
    FlattenStep(u, n + 1);
    if t.cfgs[n].num > 0 { LastSlice(t); }
    IfacesSame(t, u, |t.ifs|, |t.eps|, u.cfgs[n].first, t.cfgs[n].num);
    IfacesStep(u, u.cfgs[n].first, t.cfgs[n].num);
    IfaceEmpty(u, |t.ifs|);
  }

  // The last interface has grown by a descriptor, and nothing before it has changed.
  lemma FlattenTail(t: Tree, u: Tree, n: nat, k: nat, d: Desc)
    requires EpsInside(t) && IfsInside(t) && EpsInside(u) && IfsInside(u) && n < |t.cfgs| && u.cfgs == t.cfgs
    requires t.cfgs[n].num > 0 && t.cfgs[n].first + t.cfgs[n].num == k + 1
    requires Flatten(u, n) == Flatten(t, n)
    requires IfacesFrom(u, t.cfgs[n].first, t.cfgs[n].num - 1) == IfacesFrom(t, t.cfgs[n].first, t.cfgs[n].num - 1)
    requires IfaceOut(u, k) == IfaceOut(t, k) + [d]
    ensures Flatten(u, n + 1) == Flatten(t, n + 1) + [d]
  {
    hide Flatten, IfacesFrom, IfaceOut;
    var lo, m, head := t.cfgs[n].first, t.cfgs[n].num, [Desc(Config, t.cfgs[n].desc)];
    IfacesStep(t, lo, m - 1);
    IfacesStep(u, lo, m - 1);
    assert IfacesFrom(t, lo, m) == IfacesFrom(t, lo, m - 1) + IfaceOut(t, k);
    assert IfacesFrom(u, lo, m) == IfacesFrom(t, lo, m - 1) + (IfaceOut(t, k) + [d]);
    FlattenStep(t, n + 1);
    FlattenStep(u, n + 1);
    assert Flatten(u, n + 1) == Flatten(t, n) + head + IfacesFrom(u, lo, m);
    Regroup(Flatten(t, n) + head, IfacesFrom(t, lo, m - 1), IfaceOut(t, k), [d]);
  }

  lemma Regroup(a: seq<Desc>, x: seq<Desc>, y: seq<Desc>, d: seq<Desc>)
    ensures a + (x + (y + d)) == a + (x + y) + d
  {
  }

  // Everything but the last interface reads the same when that gains an endpoint.
  lemma EpElsewhere(t: Tree, u: Tree, n: nat, k: nat)
    requires Sliced(t) && Sliced(u) && EpsInside(t) && IfsInside(t) && EpsInside(u) && IfsInside(u)
    requires n + 1 == |t.cfgs| && t.cfgs[n].num > 0 && u.cfgs == t.cfgs && k + 1 == |t.ifs|
    requires Agree(t, u, k, |t.eps|)
    ensures t.cfgs[n].first + t.cfgs[n].num == k + 1 && Flatten(u, n) == Flatten(t, n)
    ensures IfacesFrom(u, t.cfgs[n].first, t.cfgs[n].num - 1) == IfacesFrom(t, t.cfgs[n].first, t.cfgs[n].num - 1)
  {
    hide Flatten, IfacesFrom, Sliced, Agree;
    LastSlice(t);
    FlattenSame(t, u, k, |t.eps|, n);
    IfacesSame(t, u, k, |t.eps|, t.cfgs[n].first, t.cfgs[n].num - 1);
  }

  lemma FlattenEp(t: Tree, r: EpRec)
    requires Sliced(t) && t.cfgs != [] && t.cfgs[|t.cfgs| - 1].num > 0 && t.ifs != []
    ensures var u := AddEp(t, r);
            && Sliced(u) && EpsInside(u) && IfsInside(u) && EpsInside(t) && IfsInside(t)
            && Flatten(u, |u.cfgs|) == Flatten(t, |t.cfgs|) + [Desc(Ep, r.desc)]
  {
    hide Sliced, Flatten, IfacesFrom, IfaceOut, EpsInside, IfsInside, Extended;
    var u, n, k := AddEp(t, r), |t.cfgs| - 1, |t.ifs| - 1;
    AddSliced(t);
    SlicedInside(t);
    SlicedInside(u);
    if t.ifs[k].num > 0 { LastEps(t); }
    EpElsewhere(t, u, n, k);
    IfaceMore(t, u, k, r);
    FlattenTail(t, u, n, k, Desc(Ep, r.desc));
  }
}
