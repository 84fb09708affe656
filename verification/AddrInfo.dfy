/** The list of addresses that getaddrinfo() builds: ga_aistruct, ga_clone, ga_port and
    ga_serv of libgai. */
module AddrInfo {
  import opened Base

  const SOCK_STREAM := 1
  const SOCK_DGRAM := 2

  datatype Family = Inet | Inet6 | Local

  /** What one entry of the list says; clone is the flag AI_CLONE. */
  datatype Entry = Entry(clone: bool, family: Family, socktype: int, protocol: int, address: seq<byte>, port: word)

  /** A socket type and its port, in network byte order. */
  datatype Want = Want(socktype: int, port: word)

  // ------------------------------------------- what ga_port does to a list

  predicate HasPort(e: Entry) {
    !e.family.Local?
  }

  function Typed(e: Entry, w: Want): Entry {
    e.(socktype := w.socktype, port := if HasPort(e) then w.port else e.port)
  }

  /** What becomes of one entry. */
  function Visit(e: Entry, w: Want): (es: seq<Entry>)
    ensures 1 <= |es| <= 2
  {
    if e.clone && e.socktype != 0 then [e, Typed(e.(clone := false), w)]
    else if e.clone || e.socktype == w.socktype then [Typed(e, w)]
    else [e]
  }

  function Hits(e: Entry, w: Want): nat {
    if (e.clone || e.socktype == w.socktype) && HasPort(e) then 1 else 0
  }

  function PortPass(es: seq<Entry>, w: Want): seq<Entry> {
    if es == [] then [] else Visit(es[0], w) + PortPass(es[1..], w)
  }

  function Found(es: seq<Entry>, w: Want): nat {
    if es == [] then 0 else Hits(es[0], w) + Found(es[1..], w)
  }

  /** Several calls one after the other. */
  function Passes(es: seq<Entry>, ws: seq<Want>): seq<Entry> {
    if ws == [] then es else PortPass(Passes(es, ws[..|ws| - 1]), ws[|ws| - 1])
  }

  /** The entries for one address after several calls: the first type, then the others,
      the last one first. */
  function Block(e: Entry, ws: seq<Want>): seq<Entry>
    requires ws != []
  {
    [Typed(e, ws[0])] + Later(e, ws)
  }

  function Later(e: Entry, ws: seq<Want>): seq<Entry>
    requires ws != []
  {
    if |ws| == 1 then [] else [Typed(e.(clone := false), ws[|ws| - 1])] + Later(e, ws[..|ws| - 1])
  }

  function Blocks(es: seq<Entry>, ws: seq<Want>): seq<Entry>
    requires ws != []
  {
    if es == [] then [] else Block(es[0], ws) + Blocks(es[1..], ws)
  }

  /** As ga_aistruct leaves an entry when the caller names no socket type. */
  predicate Fresh(e: Entry) {
    e.clone && e.socktype == 0 && HasPort(e)
  }

  ghost predicate AllFresh(es: seq<Entry>) {
    forall k | 0 <= k < |es| :: Fresh(es[k])
  }

  /** Distinct nonzero socket types. */
  ghost predicate Different(ws: seq<Want>) {
    && (forall k | 0 <= k < |ws| :: ws[k].socktype != 0)
    && (forall j, k | 0 <= j < k < |ws| :: ws[j].socktype != ws[k].socktype)
  }

  lemma {:induction false} PassConcat(a: seq<Entry>, b: seq<Entry>, w: Want)
    ensures PortPass(a + b, w) == PortPass(a, w) + PortPass(b, w)
    ensures Found(a + b, w) == Found(a, w) + Found(b, w)
  {
    hide Visit, Hits;
    if a == [] {
      assert a + b == b;
    } else {
      PassConcat(a[1..], b, w);
      assert (a + b)[1..] == a[1..] + b;
      Associate(Visit(a[0], w), PortPass(a[1..], w), PortPass(b, w));
    }
  }

  lemma PassCons(e: Entry, es: seq<Entry>, w: Want)
    ensures PortPass([e] + es, w) == Visit(e, w) + PortPass(es, w)
    ensures Found([e] + es, w) == Hits(e, w) + Found(es, w)
  {
    assert ([e] + es)[1..] == es;
  }

  /** The entries cloned earlier keep their types. */
  lemma {:induction false} PassLater(e: Entry, ws: seq<Want>, w: Want)
    requires ws != [] && forall k | 0 <= k < |ws| :: ws[k].socktype != w.socktype
    ensures PortPass(Later(e, ws), w) == Later(e, ws) && Found(Later(e, ws), w) == 0
  {
    if |ws| > 1 {
      PassLater(e, ws[..|ws| - 1], w);
      assert Later(e, ws)[1..] == Later(e, ws[..|ws| - 1]);
    }
  }

  lemma PassBlock(e: Entry, ws: seq<Want>, w: Want)
    requires Fresh(e) && ws != [] && Different(ws + [w])
    ensures PortPass(Block(e, ws), w) == Block(e, ws + [w]) && Found(Block(e, ws), w) == 1
  {
    hide PortPass, Found, Later, Different;
    var first, later, new' := Typed(e, ws[0]), Later(e, ws), Typed(e.(clone := false), w);
    LastDiffers(ws, w);
    PassLater(e, ws, w);
    PassCons(first, later, w);
    LaterSnoc(e, ws, w);
    assert Visit(first, w) == [first, new'];
    Associate([first], [new'], later);
    assert [first] + [new'] == [first, new'];
    assert (ws + [w])[0] == ws[0];
  }

  lemma LastDiffers(ws: seq<Want>, w: Want)
    requires Different(ws + [w])
    ensures forall k | 0 <= k < |ws| :: ws[k].socktype != 0 && ws[k].socktype != w.socktype
  {
    var all := ws + [w];
    forall k | 0 <= k < |ws|
      ensures ws[k].socktype != 0 && ws[k].socktype != w.socktype
    {
      assert all[k] == ws[k] && all[|ws|] == w;
    }
  }

  lemma LaterSnoc(e: Entry, ws: seq<Want>, w: Want)
    requires ws != []
    ensures Later(e, ws + [w]) == [Typed(e.(clone := false), w)] + Later(e, ws)
  {
    assert (ws + [w])[..|ws|] == ws;
  }

  lemma {:induction false} PassBlocks(es: seq<Entry>, ws: seq<Want>, w: Want)
    requires AllFresh(es) && ws != [] && Different(ws + [w])
    ensures PortPass(Blocks(es, ws), w) == Blocks(es, ws + [w]) && Found(Blocks(es, ws), w) == |es|
  {
    if es != [] {
      PassBlocks(es[1..], ws, w);
      PassBlock(es[0], ws, w);
      PassConcat(Block(es[0], ws), Blocks(es[1..], ws), w);
    }
  }

  lemma {:induction false} FirstPass(es: seq<Entry>, w: Want)
    requires AllFresh(es)
    ensures PortPass(es, w) == Blocks(es, [w]) && Found(es, w) == |es|
  {
    if es != [] {
      FirstPass(es[1..], w);
      assert Block(es[0], [w]) == [Typed(es[0], w)] == Visit(es[0], w);
    }
  }

  lemma DifferentPrefix(ws: seq<Want>, w: Want)
    requires Different(ws + [w])
    ensures Different(ws)
  {
    assert forall k | 0 <= k < |ws| :: (ws + [w])[k] == ws[k];
  }

  /** For every address and any number of distinct types: its block, in the place of the
      address; and the call for each type finds every address. */
  lemma {:induction false} PassesMakeBlocks(es: seq<Entry>, ws: seq<Want>)
    requires AllFresh(es) && ws != [] && Different(ws)
    ensures Passes(es, ws) == Blocks(es, ws)
    ensures forall k | 0 <= k < |ws| :: Found(Passes(es, ws[..k]), ws[k]) == |es|
  {
    hide PortPass, Found, Blocks, Different;
    var n := |ws| - 1;
    var before, w := ws[..n], ws[n];
    assert ws == before + [w];
    DifferentPrefix(before, w);
    if n == 0 {
      FirstPass(es, w);
      assert before == [] && ws == [w];
    } else {
      PassesMakeBlocks(es, before);
      PassBlocks(es, before, w);
      forall k | 0 <= k < n
        ensures Found(Passes(es, ws[..k]), ws[k]) == |es|
      {
        assert before[..k] == ws[..k] && before[k] == ws[k];
      }
    }
  }

  /** The entry that address e gets from a call: the address itself from the first, clones
      from the others. */
  ghost predicate IsFor(r: Entry, e: Entry, cloned: bool, w: Want) {
    && r.family == e.family && r.address == e.address && r.protocol == e.protocol
    && r.clone == !cloned && r.socktype == w.socktype && r.port == w.port
  }

  /** The block of address i is t1, tk, tk-1, ..., t2. */
  lemma {:induction false} BlockEntry(es: seq<Entry>, ws: seq<Want>, i: nat, j: nat)
    requires AllFresh(es) && i < |es| && j < |ws|
    ensures |Blocks(es, ws)| == |es| * |ws| && i * |ws| + j < |es| * |ws|
    ensures IsFor(Blocks(es, ws)[i * |ws| + j], es[i], j > 0, ws[if j == 0 then 0 else |ws| - j])
    decreases |es|
  {
    hide Block;
    var k, rest := |ws|, es[1..];
    EntryOfBlock(es[0], ws, if i == 0 then j else 0);
    Rows(i, |es|, k, j);
    if |es| == 1 {
      assert Blocks(rest, ws) == [];
    } else {
      BlockEntry(rest, ws, if i == 0 then 0 else i - 1, j);
      assert i > 0 ==> es[i] == rest[i - 1];
    }
  }

  lemma Rows(i: nat, n: nat, k: nat, j: nat)
    requires i < n && j < k
    ensures i * k + j < n * k && n * k == k + (n - 1) * k
    ensures i > 0 ==> i * k + j - k == (i - 1) * k + j >= 0
  {
    assert (i + 1) * k <= n * k;
  }

  lemma EntryOfBlock(e: Entry, ws: seq<Want>, j: nat)
    requires Fresh(e) && j < |ws|
    ensures |Block(e, ws)| == |ws|
    ensures IsFor(Block(e, ws)[j], e, j > 0, ws[if j == 0 then 0 else |ws| - j])
  {
    LaterEntry(e, ws, j);
  }

  lemma {:induction false} LaterEntry(e: Entry, ws: seq<Want>, j: nat)
    requires j < |ws|
    ensures |Later(e, ws)| == |ws| - 1
    ensures j > 0 ==> Later(e, ws)[j - 1] == Typed(e.(clone := false), ws[|ws| - j])
    decreases |ws|
  {
    if |ws| > 1 {
      var before := ws[..|ws| - 1];
      LaterEntry(e, before, if j <= 1 then 0 else j - 1);
      if j > 1 {
        assert Later(e, ws)[j - 1] == Later(e, before)[j - 2];
      }
    }
  }

  // ------------------------------------------- the list in memory

  class SockAddr {
    const family: Family
    const address: seq<byte>
    var port: word

    constructor (f: Family, a: seq<byte>, p: word)
      ensures family == f && address == a && port == p
    {
      family, address, port := f, a, p;
    }
  }

  class Node {
    var clone: bool
    const family: Family
    var socktype: int
    const protocol: int
    const addr: SockAddr
    var next: Node?

    constructor (c: bool, f: Family, s: int, p: int, a: SockAddr, n: Node?)
      ensures clone == c && family == f && socktype == s && protocol == p && addr == a && next == n
    {
      clone, family, socktype, protocol, addr, next := c, f, s, p, a, n;
    }

    ghost function Value(): Entry
      reads this, addr
    {
      Entry(clone, family, socktype, protocol, addr.address, addr.port)
    }
  }

  ghost function Addrs(nodes: seq<Node>): set<SockAddr> {
    set n | n in nodes :: n.addr
  }

  /** The nodes are linked in this order. */
  ghost predicate Chain(nodes: seq<Node>)
    reads nodes
  {
    && (forall i | 0 <= i < |nodes| - 1 :: nodes[i].next == nodes[i + 1])
    && (nodes != [] ==> nodes[|nodes| - 1].next == null)
  }

  /** No two of them share a node or a socket address. */
  ghost predicate Separate(nodes: seq<Node>) {
    && (forall i, j | 0 <= i < j < |nodes| :: nodes[i] != nodes[j])
    && (forall i, j | 0 <= i < j < |nodes| :: nodes[i].addr != nodes[j].addr)
  }

  ghost function Inserted<T>(s: seq<T>, k: nat, x: T): (t: seq<T>)
    requires k < |s|
    ensures |t| == |s| + 1
    ensures forall i | 0 <= i < |t| :: t[i] == if i <= k then s[i] else if i == k + 1 then x else s[i - 1]
  {
    s[..k + 1] + [x] + s[k + 1..]
  }

  lemma InsertSeparate(nodes: seq<Node>, k: nat, c: Node)
    requires Separate(nodes) && k < |nodes| && c !in nodes && c.addr !in Addrs(nodes)
    ensures Separate(Inserted(nodes, k, c))
  {
    assert forall i | 0 <= i < |nodes| :: nodes[i] in nodes && nodes[i].addr in Addrs(nodes);
    hide Addrs;
  }

  /** A new node after node k makes a longer chain. */
  lemma InsertChain(nodes: seq<Node>, k: nat, c: Node)
    requires k < |nodes| && nodes[k].next == c
    requires forall i | 0 <= i < |nodes| - 1 && i != k :: nodes[i].next == nodes[i + 1]
    requires k + 1 < |nodes| ==> nodes[|nodes| - 1].next == null
    requires (k + 1 < |nodes| ==> c.next == nodes[k + 1]) && (k + 1 == |nodes| ==> c.next == null)
    ensures Chain(Inserted(nodes, k, c))
  {
  }

  lemma OthersDiffer(nodes: seq<Node>, k: nat)
    requires Separate(nodes) && k < |nodes|
    ensures forall i | 0 <= i < |nodes| && i != k :: nodes[i] != nodes[k] && nodes[i].addr != nodes[k].addr
  {
  }

  ghost function Values(nodes: seq<Node>): (es: seq<Entry>)
    reads nodes, Addrs(nodes)
    ensures |es| == |nodes|
  {
    seq(|nodes|, i requires 0 <= i < |nodes| reads nodes, Addrs(nodes) => nodes[i].Value())
  }

  lemma AppendSeparate(nodes: seq<Node>, c: Node)
    requires Separate(nodes) && c !in nodes && c.addr !in Addrs(nodes)
    ensures Separate(nodes + [c])
  {
    assert forall i | 0 <= i < |nodes| :: nodes[i] in nodes && nodes[i].addr in Addrs(nodes);
    hide Addrs;
  }

  lemma ValuesSnoc(nodes: seq<Node>, c: Node)
    ensures Values(nodes + [c]) == Values(nodes) + [c.Value()]
  {
  }

  lemma ValueAt(nodes: seq<Node>, k: nat)
    requires k < |nodes|
    ensures Values(nodes)[k] == nodes[k].Value()
  {
  }

  lemma VisitCases(e: Entry, w: Want)
    ensures |Visit(e, w)| == if e.clone && e.socktype != 0 then 2 else 1
    ensures !e.clone && e.socktype != w.socktype ==> Visit(e, w) == [e]
    ensures Hits(e, w) == if (e.clone || e.socktype == w.socktype) && HasPort(e) then 1 else 0
  {
  }

  lemma ValuesInserted(nodes: seq<Node>, k: nat, c: Node)
    requires k < |nodes|
    ensures Values(Inserted(nodes, k, c)) == Inserted(Values(nodes), k, c.Value())
  {
  }

  /** ga_clone: a copy of a node, right after it, with its own socket address. */
  method GaClone(ai: Node) returns (c: Node)
    modifies ai`next
    ensures fresh(c) && fresh(c.addr) && ai.next == c && c.next == old(ai.next)
    ensures c.Value() == old(ai.Value()).(clone := false)
  {
    var copy := new SockAddr(ai.addr.family, ai.addr.address, ai.addr.port);
    c := new Node(false, ai.family, ai.socktype, ai.protocol, copy, ai.next);
    ai.next := c;
  }

  /** Where a pass stands before entry k: it has made es of the first entries of orig. */
  ghost predicate Halfway(orig: seq<Entry>, es: seq<Entry>, k: nat, w: Want, nfound: int) {
    && k <= |es| && es[..k] + PortPass(es[k..], w) == PortPass(orig, w)
    && nfound + Found(es[k..], w) == Found(orig, w)
  }

  lemma PassStarts(es: seq<Entry>, w: Want)
    ensures Halfway(es, es, 0, w, 0)
  {
    assert es[0..] == es && es[..0] == [];
    assert [] + PortPass(es, w) == PortPass(es, w);
  }

  lemma PassEnds(orig: seq<Entry>, es: seq<Entry>, w: Want, nfound: int)
    requires Halfway(orig, es, |es|, w, nfound)
    ensures es == PortPass(orig, w) && nfound == Found(orig, w)
  {
    assert es[|es|..] == [] && es[..|es|] == es;
    assert es + [] == es;
  }

  /** One entry is passed, alone or with its clone after it. */
  lemma PassStep(orig: seq<Entry>, es: seq<Entry>, es': seq<Entry>, k: nat, w: Want, nfound: int)
    requires Halfway(orig, es, k, w, nfound) && k < |es|
    requires es' == es[..k] + Visit(es[k], w) + es[k + 1..]
    ensures Halfway(orig, es', k + |Visit(es[k], w)|, w, nfound + Hits(es[k], w))
  {
    hide Visit, Hits;
    var v, rest := Visit(es[k], w), es[k + 1..];
    assert es[k..] == [es[k]] + rest;
    PassCons(es[k], rest, w);
    assert es'[..k + |v|] == es[..k] + v && es'[k + |v|..] == rest;
    Associate(es[..k], v, PortPass(rest, w));
  }

  class List {
    var head: Node?
    var last: Node?              // the node whose ai_next is *aipnext; none while the list is empty
    ghost var nodes: seq<Node>

    ghost predicate Valid()
      reads this, nodes
    {
      Chain(nodes) && Separate(nodes) && head == if nodes == [] then null else nodes[0]
    }

    constructor ()
      ensures Valid() && nodes == [] && last == null
    {
      head, last, nodes := null, null, [];
    }

    /** Node k gets a clone. */
    method CloneAt(ai: Node, ghost k: nat) returns (c: Node)
      requires Valid() && k < |nodes| && ai == nodes[k]
      modifies this`nodes, ai`next
      ensures Valid() && fresh(c) && fresh(c.addr) && nodes == Inserted(old(nodes), k, c)
      ensures Values(nodes) == Inserted(old(Values(nodes)), k, old(Values(nodes)[k]).(clone := false))
    {
      hide Separate;
      ghost var before, values := nodes, Values(nodes);
      OthersDiffer(before, k);
      assert k + 1 < |before| ==> ai.next == before[k + 1];
      assert k + 1 == |before| ==> ai.next == null;
      c := GaClone(ai);
      InsertSeparate(before, k, c);
      InsertChain(before, k, c);
      nodes := Inserted(before, k, c);
      assert Values(before) == values;
      ValuesInserted(before, k, c);
    }

    /** The node gets its type and, if its family has ports, its port. */
    method SetType(ai: Node, ghost k: nat, w: Want) returns (found: nat)
      requires Valid() && k < |nodes| && ai == nodes[k]
      modifies ai`socktype, ai.addr`port
      ensures Valid()
      ensures Values(nodes) == old(Values(nodes))[k := Typed(old(Values(nodes)[k]), w)]
      ensures var e := old(Values(nodes)[k]);
              && found == (if e.family.Local? then 0 else 1)
              && Values(nodes)[k] == e.(socktype := w.socktype, port := if e.family.Local? then e.port else w.port)
    {
      hide Separate;
      OthersDiffer(nodes, k);
      ai.socktype := w.socktype;
      match ai.family
      case Inet => ai.addr.port := w.port; found := 1;
      case Inet6 => ai.addr.port := w.port; found := 1;
      case Local => found := 0;
    }

    /** The nodes and addresses that are not new since an earlier state are those of that state. */
    twostate predicate OnlyAdds(new before: seq<Node>)
      reads this
    {
      && (forall n | n in nodes :: n in before || fresh(n))
      && (forall n | n in nodes :: n.addr in Addrs(before) || fresh(n.addr))
    }

    /** The loop's turn for node k, and the next node. */
    method Pass(ai: Node, ghost k: nat, w: Want) returns (next: Node?, found: nat, ghost k': nat)
      requires Valid() && k < |nodes| && ai == nodes[k]
      modifies this`nodes, ai, ai.addr
      ensures Valid() && OnlyAdds(old(nodes))
      ensures var es := old(Values(nodes));
              && Values(nodes) == es[..k] + Visit(es[k], w) + es[k + 1..]
              && found == Hits(es[k], w) && k' == k + |Visit(es[k], w)|
      ensures k' <= |nodes| && (k' < |nodes| ==> next == nodes[k']) && (k' == |nodes| ==> next == null)
    {
      hide Separate, Values, Visit, Hits, Typed;
      ghost var es := Values(nodes);
      ValueAt(nodes, k);
      VisitCases(es[k], w);
      var at := ai;
      k' := k;
      if ai.clone {
        if ai.socktype != 0 {
          at := CloneAt(ai, k);
          k' := k + 1;
        }
      } else if ai.socktype != w.socktype {
        assert es == es[..k] + [es[k]] + es[k + 1..];
        return ai.next, 0, k + 1;
      }
      found := SetType(at, k', w);
      next := at.next;
      VisitInPlace(es, k, w, Values(nodes));
      k' := k' + 1;
    }

    /** ga_port: the list becomes what the pass makes of it. */
    method GaPort(w: Want) returns (nfound: nat)
      requires Valid()
      modifies this`nodes, nodes, Addrs(nodes)
      ensures Valid() && OnlyAdds(old(nodes))
      ensures Values(nodes) == PortPass(old(Values(nodes)), w) && nfound == Found(old(Values(nodes)), w)
    {
      hide Separate, Chain, Values, Halfway, Visit, Hits;
      ghost var orig := Values(nodes);
      ghost var k: nat := 0;
      PassStarts(orig, w);
      nfound := 0;
      var ai := head;
      while ai != null
        invariant Valid() && OnlyAdds(old(nodes)) && k <= |nodes|
        invariant (k < |nodes| ==> ai == nodes[k]) && (k == |nodes| ==> ai == null)
        invariant Halfway(orig, Values(nodes), k, w, nfound)
        decreases |Values(nodes)| - k
      {
        ghost var es, at := Values(nodes), k;
        assert nodes[k] in nodes;
        var found;
        ai, found, k := Pass(ai, k, w);
        PassStep(orig, es, Values(nodes), at, w, nfound);
        nfound := nfound + found;
      }
      PassEnds(orig, Values(nodes), w, nfound);
    }

    /** aipnext is at the end of the list, as it is until ga_port splices in clones. */
    ghost predicate AtEnd()
      reads this
    {
      (nodes == [] ==> last == null) && (nodes != [] ==> last == nodes[|nodes| - 1])
    }

    /** *aipnext = ai; aipnext = &ai->ai_next */
    method Append(ai: Node)
      requires Valid() && AtEnd() && ai !in nodes && ai.addr !in Addrs(nodes) && ai.next == null
      modifies this, nodes
      ensures Valid() && AtEnd() && nodes == old(nodes) + [ai]
      ensures Values(nodes) == old(Values(nodes)) + [old(ai.Value())]
    {
      hide Separate;
      ghost var before, values := nodes, Values(nodes);
      if before != [] {
        OthersDiffer(before, |before| - 1);
      }
      if last == null {
        head := ai;
      } else {
        last.next := ai;
      }
      last := ai;
      AppendSeparate(before, ai);
      nodes := before + [ai];
      assert Values(before) == values;
      ValuesSnoc(before, ai);
    }

    /** ga_aistruct: an entry at the end, to be cloned if the caller names no socket type. */
    method GaAistruct(socktype: int, protocol: int, address: seq<byte>, family: Family)
      requires Valid() && AtEnd()
      modifies this, nodes
      ensures Valid() && AtEnd() && |nodes| == old(|nodes|) + 1 && OnlyAdds(old(nodes))
      ensures Values(nodes) == old(Values(nodes)) + [Entry(socktype == 0, family, socktype, protocol, address, 0)]
    {
      hide Separate, Chain, Values;
      var addr := new SockAddr(family, address, 0);
      var ai := new Node(socktype == 0, family, socktype, protocol, addr, null);
      Append(ai);
    }

    /** ga_serv: one pass for each socket type that the service has and the caller allows. */
    method GaServ(socktype: int, serv: Service) returns (code: Code)
      requires Valid()
      modifies this`nodes, nodes, Addrs(nodes)
      ensures Valid() && OnlyAdds(old(nodes))
      ensures var es, ws := old(Values(nodes)), Wanted(socktype, serv);
              && Values(nodes) == Passes(es, ws)
              && code == if FoundAll(es, ws) > 0 then Ok else if socktype == 0 then NoName else NoService
    {
      hide Separate, Chain, Values, PortPass, Found, Passes, FoundAll;
      ghost var es := Values(nodes);
      PassesFew(es);
      var nfound := 0;
      match serv {
        case Number(port) =>
          if socktype != 0 {
            var rc := GaPort(Want(socktype, port));
            nfound := nfound + rc;
          } else {
            var rc := GaPort(Want(SOCK_STREAM, port));
            nfound := nfound + rc;
            assert forall i | 0 <= i < |nodes| :: nodes[i] in nodes;
            rc := GaPort(Want(SOCK_DGRAM, port));
            nfound := nfound + rc;
          }
        case Name(tcp, udp) =>
          if socktype == 0 || socktype == SOCK_STREAM {
            if tcp.Some? {
              var rc := GaPort(Want(SOCK_STREAM, tcp.value));
              nfound := nfound + rc;
            }
          }
          if socktype == 0 || socktype == SOCK_DGRAM {
            if udp.Some? {
              assert forall i | 0 <= i < |nodes| :: nodes[i] in nodes;
              var rc := GaPort(Want(SOCK_DGRAM, udp.value));
              nfound := nfound + rc;
            }
          }
      }
      if nfound == 0 {
        return if socktype == 0 then NoName else NoService;
      }
      return Ok;
    }
  }

  /** The service string: a number, or a name with the ports getservbyname() knows for it. */
  datatype Service = Number(port: word) | Name(tcp: Option<word>, udp: Option<word>)

  /** 0, EAI_NONAME and EAI_SERVICE. */
  datatype Code = Ok | NoName | NoService

  /** The socket types that a service gets, given the caller's; 0 allows any. */
  function Wanted(socktype: int, serv: Service): (ws: seq<Want>)
    ensures |ws| <= 2
  {
    match serv
    case Number(port) =>
      if socktype != 0 then [Want(socktype, port)] else [Want(SOCK_STREAM, port), Want(SOCK_DGRAM, port)]
    case Name(tcp, udp) =>
      var stream := (socktype == 0 || socktype == SOCK_STREAM) && tcp.Some?;
      var dgram := (socktype == 0 || socktype == SOCK_DGRAM) && udp.Some?;
      if stream && dgram then [Want(SOCK_STREAM, tcp.value), Want(SOCK_DGRAM, udp.value)]
      else if stream then [Want(SOCK_STREAM, tcp.value)]
      else if dgram then [Want(SOCK_DGRAM, udp.value)]
      else []
  }

  function FoundAll(es: seq<Entry>, ws: seq<Want>): nat {
    if ws == [] then 0
    else FoundAll(es, ws[..|ws| - 1]) + Found(Passes(es, ws[..|ws| - 1]), ws[|ws| - 1])
  }

  lemma PassesFew(es: seq<Entry>)
    ensures Passes(es, []) == es && FoundAll(es, []) == 0
    ensures forall v: Want :: Passes(es, [v]) == PortPass(es, v) && FoundAll(es, [v]) == Found(es, v)
    ensures forall v: Want, w: Want ::
              && Passes(es, [v, w]) == PortPass(PortPass(es, v), w)
              && FoundAll(es, [v, w]) == Found(es, v) + Found(PortPass(es, v), w)
  {
    hide PortPass, Found;
    forall v: Want, w: Want
      ensures Passes(es, [v]) == PortPass(es, v) && FoundAll(es, [v]) == Found(es, v)
      ensures Passes(es, [v, w]) == PortPass(PortPass(es, v), w)
      ensures FoundAll(es, [v, w]) == Found(es, v) + Found(PortPass(es, v), w)
    {
      assert [v][..0] == [] && [v, w][..1] == [v];
    }
  }

  /** As ga_aistruct has built the list for a caller's socket type. */
  ghost predicate Built(es: seq<Entry>, socktype: int) {
    forall k | 0 <= k < |es| :: HasPort(es[k]) && es[k].socktype == socktype && (es[k].clone <==> socktype == 0)
  }

  lemma {:induction false} PassTyped(es: seq<Entry>, w: Want)
    requires w.socktype != 0 && Built(es, w.socktype)
    ensures Found(es, w) == |es| == |PortPass(es, w)|
    ensures forall k | 0 <= k < |es| :: PortPass(es, w)[k] == Typed(es[k], w)
  {
    if es != [] {
      PassTyped(es[1..], w);
    }
  }

  /** Each address has become two entries, for a stream at port p and for datagrams at port q. */
  ghost predicate Pairs(es: seq<Entry>, r: seq<Entry>, p: word, q: word) {
    && |r| == 2 * |es|
    && forall i | 0 <= i < |es| ::
         && r[2 * i] == es[i].(socktype := 1, port := p)
         && r[2 * i + 1] == es[i].(clone := false, socktype := 2, port := q)
  }

  /** Each address is still one entry, now with this type and port. */
  ghost predicate Singles(es: seq<Entry>, r: seq<Entry>, socktype: int, port: word) {
    |r| == |es| && forall i | 0 <= i < |es| :: r[i] == es[i].(socktype := socktype, port := port)
  }

  /** What getaddrinfo() gets from ga_serv for a list that ga_aistruct has built: an error and
      the list as it was exactly if the service has no allowed socket type; without a type from
      the caller, for each address an entry per type, otherwise each address with its port. */
  lemma ServResult(es: seq<Entry>, socktype: int, serv: Service)
    requires Built(es, socktype) && es != []
    ensures var ws := Wanted(socktype, serv);
            var r := Passes(es, ws);
            match serv
            case Number(p) => FoundAll(es, ws) > 0 && if socktype == 0 then Pairs(es, r, p, p)
                                                      else Singles(es, r, socktype, p)
            case Name(tcp, udp) =>
              if socktype == 0 && tcp.Some? && udp.Some? then
                FoundAll(es, ws) > 0 && Pairs(es, r, tcp.value, udp.value)
              else if (socktype == 0 || socktype == 1) && tcp.Some? then
                FoundAll(es, ws) > 0 && Singles(es, r, 1, tcp.value)
              else if (socktype == 0 || socktype == 2) && udp.Some? then
                FoundAll(es, ws) > 0 && Singles(es, r, 2, udp.value)
              else FoundAll(es, ws) == 0 && r == es
  {
    hide PortPass, Found, Blocks, Passes, FoundAll, Pairs, Singles, Built;
    var ws := Wanted(socktype, serv);
    PassesFew(es);
    if |ws| == 2 {
      assert ws == [ws[0], ws[1]];
      BothTypes(es, ws[0].port, ws[1].port);
    } else if |ws| == 1 {
      assert ws == [ws[0]];
      OneType(es, socktype, ws[0]);
    } else {
      assert ws == [];
    }
  }

  lemma {:induction false} OneType(es: seq<Entry>, socktype: int, w: Want)
    requires Built(es, socktype) && es != [] && w.socktype != 0 && (socktype == 0 || w.socktype == socktype)
    ensures Singles(es, PortPass(es, w), w.socktype, w.port) && Found(es, w) == |es|
  {
    hide PortPass, Found, Blocks;
    if socktype != 0 {
      PassTyped(es, w);
    } else {
      FirstPass(es, w);
      forall i | 0 <= i < |es|
        ensures |Blocks(es, [w])| == |es| && Blocks(es, [w])[i] == es[i].(socktype := w.socktype, port := w.port)
      {
        BlockEntry(es, [w], i, 0);
      }
      BlockEntry(es, [w], 0, 0);
    }
  }

  lemma {:induction false} BothTypes(es: seq<Entry>, p: word, q: word)
    requires Built(es, 0) && es != []
    ensures var v, w := Want(SOCK_STREAM, p), Want(SOCK_DGRAM, q);
            && Pairs(es, PortPass(PortPass(es, v), w), p, q)
            && Found(es, v) + Found(PortPass(es, v), w) > 0
  {
    hide PortPass, Found, Blocks;
    var v, w := Want(SOCK_STREAM, p), Want(SOCK_DGRAM, q);
    FirstPass(es, v);
    assert [v] + [w] == [v, w];
    PassBlocks(es, [v], w);
    forall i | 0 <= i < |es|
      ensures var r := Blocks(es, [v, w]);
              && |r| == 2 * |es| && r[2 * i] == es[i].(socktype := 1, port := p)
              && r[2 * i + 1] == es[i].(clone := false, socktype := 2, port := q)
    {
      BlockEntry(es, [v, w], i, 0);
      BlockEntry(es, [v, w], i, 1);
    }
    BlockEntry(es, [v, w], 0, 0);
  }

  /** The list after a visit, case by case: a clone with the type after the entry, the type in
      the entry, or nothing. */
  lemma VisitInFull(es: seq<Entry>, k: nat, w: Want)
    requires k < |es|
    ensures var e := es[k];
            var t := e.(clone := false, socktype := w.socktype, port := if e.family.Local? then e.port else w.port);
            es[..k] + Visit(e, w) + es[k + 1..] ==
            if e.clone && e.socktype != 0 then es[..k + 1] + [t] + es[k + 1..]
            else if e.clone || e.socktype == w.socktype then es[k := t.(clone := e.clone)]
            else es
  {
  }

  lemma VisitInPlace(es: seq<Entry>, k: nat, w: Want, es': seq<Entry>)
    requires k < |es|
    requires var e := es[k];
             if e.clone && e.socktype != 0
             then es' == Inserted(es, k, e.(clone := false))[k + 1 := Typed(e.(clone := false), w)]
             else (e.clone || e.socktype == w.socktype) && es' == es[k := Typed(e, w)]
    ensures es' == es[..k] + Visit(es[k], w) + es[k + 1..]
  {
  }
}