/**
  One SMF relay node: the receive path, the MPR selector list and the prune timer
  of the simulation process model.

  The decision is specified as a table of predicates over the node and the
  reception; the class below runs the source's early-return cascade and is proved
  to realise that table.
*/
module SmfNode {
  import opened Basics
  import opened SlidingWindow
  import opened DuplicateTree
  import opened FlowLinks

  const SELECTOR_LIST_LEN_MAX := 600
  const MAC_ADDR_LEN := 4
  const PRUNE_INTERVAL := 5

  datatype Direction = Unspecified | Inbound | Outbound
  datatype Target = Unicast | Multicast | Broadcast

  /** The IP header fields the relay looks at; `ttl` is a plain signed field. */
  datatype Header = Header(src: u32, target: Target, ident: u32, ttl: int, version: int)

  /** What the MAC hands over with one captured packet. */
  datatype Reception = Reception(pkt: Header, direction: Direction, txAddr: u32, rxAddr: u32, ownIp: u32)

  /** The name under which the duplicate detector remembers a packet. */
  datatype Identity = Identity(src: u32, ident: u32)

  function Id(pkt: Header): Identity { Identity(pkt.src, pkt.ident) }

  // ----- selector list -----

  function MacList(addrs: seq<u32>): seq<byte> {
    if addrs == [] then [] else WordBytes(addrs[0]) + MacList(addrs[1..])
  }

  /** The address occurs at a multiple of four that starts before `len`. */
  ghost predicate Selects(list: seq<byte>, len: nat, addr: u32)
    requires |list| == SELECTOR_LIST_LEN_MAX && len <= SELECTOR_LIST_LEN_MAX
  {
    exists k: nat :: SlotAt(list, len, addr, k)
  }

  ghost predicate SlotAt(list: seq<byte>, len: nat, addr: u32, k: nat)
    requires |list| == SELECTOR_LIST_LEN_MAX && len <= SELECTOR_LIST_LEN_MAX
  {
    4 * k < len && forall i | 0 <= i < MAC_ADDR_LEN :: list[4 * k + i] == WordBytes(addr)[i]
  }

  // ----- the node as a value -----

  datatype Node = Node(
    defaultForward: bool, resequence: bool, filtering: bool,
    ageMax: u32, now: u32,
    selectors: seq<byte>, selectorLen: nat,
    windowSize: nat, windowPastMax: nat, tree: Records,
    recv: u32, mrcv: u32, dups: u32, sent: u32)
  {
    ghost predicate Valid() {
      |selectors| == SELECTOR_LIST_LEN_MAX && selectorLen <= SELECTOR_LIST_LEN_MAX &&
      Config(windowSize, windowPastMax) && ValidRecords(tree, windowSize)
    }

    /** From how far behind a sequence number restarts the window. */
    function Past(): nat { Limit(windowSize, windowPastMax) }

    /** The packet is looked at: inbound, or outbound on a resequencing node. */
    predicate Captured(r: Reception) { r.direction == Inbound || resequence }

    /** The packet reaches the multicast part of the receive path. */
    predicate Reaches(r: Reception) { Captured(r) && r.pkt.target == Multicast }

    ghost predicate Selected(r: Reception) requires Valid() {
      defaultForward || Selects(selectors, selectorLen, r.txAddr)
    }

    /** Everything but duplicate detection speaks for relaying.  The TTL test is
        made on the decremented value against zero, so only a TTL of one fails it. */
    ghost predicate Eligible(r: Reception) requires Valid() {
      Reaches(r) && Selected(r) && !OwnPacket(r) && r.pkt.ttl != 1
    }

    /** The duplicate detector is consulted, and hence remembers the packet. */
    ghost predicate Consults(r: Reception) requires Valid() {
      if filtering then Reaches(r) else Eligible(r)
    }

    /** The detector takes the packet for a duplicate. */
    predicate Refuses(id: Identity) { Refused(tree, windowSize, Past(), id.src, id.ident) }

    ghost function Consulted(id: Identity): (n: Node)
      requires Valid()
      ensures n.Valid()
    {
      RecordedValid(tree, windowSize, Past(), now, id.src, id.ident);
      this.(tree := Recorded(tree, windowSize, Past(), now, id.src, id.ident))
    }

    ghost predicate Forwards(r: Reception) requires Valid() {
      Eligible(r) && !Refuses(Id(r.pkt))
    }

    ghost predicate Duplicated(r: Reception) requires Valid() {
      Eligible(r) && Refuses(Id(r.pkt))
    }

    /** The packet is withheld from the layers above. */
    ghost predicate Withholds(r: Reception) requires Valid() {
      filtering && Reaches(r) && (Refuses(Id(r.pkt)) || (Selected(r) && OwnPacket(r)))
    }

    ghost function After(r: Reception): (n: Node)
      requires Valid()
      ensures n.Valid()
    {
      this.(tree := if Consults(r) then Consulted(Id(r.pkt)).tree else tree,
            recv := if Captured(r) then Wrap32(recv + 1) else recv,
            mrcv := if Reaches(r) then Wrap32(mrcv + 1) else mrcv,
            dups := if Duplicated(r) then Wrap32(dups + 1) else dups,
            sent := if Forwards(r) then Wrap32(sent + 1) else sent)
    }

    ghost function AfterTimeout(): (n: Node)
      requires Valid()
      ensures n.Valid()
    {
      var later := Wrap32(now + PRUNE_INTERVAL);
      this.(now := later, tree := Pruned(tree, later, ageMax))
    }

    ghost function AfterForwardMac(arg: seq<byte>): (n: Node)
      requires Valid()
      ensures n.Valid()
    {
      var len := if |arg| > SELECTOR_LIST_LEN_MAX then SELECTOR_LIST_LEN_MAX else |arg|;
      this.(selectors := arg[..len] + selectors[len..], selectorLen := len)
    }
  }

  /** Where the window of a source stands, if there is one. */
  ghost function Front(n: Node, src: u32): set<u32> {
    if src in n.tree then {n.tree[src].mask.last} else {}
  }

  /** Sent by this node: its own station address, or (IPv4) its own source address. */
  predicate OwnPacket(r: Reception) {
    r.txAddr == r.rxAddr || (r.pkt.version == 4 && r.pkt.src == r.ownIp)
  }

  /** A packet consulted for is refused afterwards. */
  lemma ConsultedRefused(n: Node, r: Reception)
    requires n.Valid() && n.Consults(r)
    ensures n.After(r).Refuses(Id(r.pkt))
  {
    SelfRefused(MaskOf(n.tree, r.pkt.src), n.windowSize, n.Past(), r.pkt.ident);
  }

  // ----- what the relay does, by the fields of the reception -----

  /** The node leaves the reception alone but for counting it. */
  ghost predicate LeavesAlone(n: Node, r: Reception)
    requires n.Valid()
  {
    !n.Forwards(r) && !n.Withholds(r) &&
    n.After(r) == n.(recv := n.After(r).recv, mrcv := n.After(r).mrcv)
  }

  /** Outbound packets, but on a resequencing node, and packets for other than a multicast
      target are neither relayed nor withheld nor remembered; only captured ones are counted,
      and only multicast ones as such. */
  lemma OnlyMulticastIsRelayed(n: Node, r: Reception)
    requires n.Valid()
    ensures r.pkt.target != Multicast || (r.direction != Inbound && !n.resequence) ==>
              LeavesAlone(n, r) && n.After(r).mrcv == n.mrcv
    ensures r.direction != Inbound && !n.resequence ==> n.After(r) == n
    ensures r.direction == Inbound ==> n.After(r).recv == Wrap32(n.recv + 1)
    ensures r.direction == Inbound && r.pkt.target == Multicast ==> n.After(r).mrcv == Wrap32(n.mrcv + 1)
  {
  }

  /** Of the inbound multicast packets just those are relayed that are new, not this node's own
      by station or (IPv4) source address, not at the end of their TTL, and heard from a station
      the node relays for. */
  lemma RelaysExactly(n: Node, r: Reception)
    requires n.Valid() && r.direction == Inbound && r.pkt.target == Multicast
    ensures var own := r.txAddr == r.rxAddr || (r.pkt.version == 4 && r.pkt.src == r.ownIp);
            var picked := n.defaultForward || Selects(n.selectors, n.selectorLen, r.txAddr);
            && (n.Forwards(r) <==> picked && !own && r.pkt.ttl != 1 && !n.Refuses(Id(r.pkt)))
            && (n.Withholds(r) <==> n.filtering && ((picked && own) || n.Refuses(Id(r.pkt))))
            && n.After(r).sent == (if n.Forwards(r) then Wrap32(n.sent + 1) else n.sent)
  {
  }

  // ----- the node as the source runs it -----

  class Packet {
    var src: u32
    var target: Target
    var ident: u32
    var ttl: int
    var version: int

    constructor (h: Header)
      ensures View() == h
    {
      src, target, ident, ttl, version := h.src, h.target, h.ident, h.ttl, h.version;
    }

    function View(): Header reads this { Header(src, target, ident, ttl, version) }

    /** The kernel's packet copy: the copy's header fields are its own. */
    method Copy() returns (c: Packet)
      ensures fresh(c) && c.View() == View()
    {
      c := new Packet(Header(src, target, ident, ttl, version));
    }
  }

  /** Memory shared between the MAC and the relay process. */
  class WlanMem {
    var pkptr: Packet
    var direction: Direction
    var txAddr: u32
    var rxAddr: u32
    var txIpAddr: u32
    var forward: bool
    var isDuplicate: bool

    constructor (p: Packet, d: Direction, tx: u32, rx: u32, ip: u32)
      ensures pkptr == p && direction == d && txAddr == tx && rxAddr == rx && txIpAddr == ip
    {
      pkptr, direction, txAddr, rxAddr, txIpAddr := p, d, tx, rx, ip;
      forward, isDuplicate := false, false;
    }

    function View(): Reception
      reads this`pkptr, this`direction, this`txAddr, this`rxAddr, this`txIpAddr, pkptr
    {
      Reception(pkptr.View(), direction, txAddr, rxAddr, txIpAddr)
    }
  }

  lemma NextTick(stamp: u32, time: nat)
    requires stamp == Wrap32(time)
    ensures Wrap32(stamp + PRUNE_INTERVAL) == Wrap32(time + PRUNE_INTERVAL)
  {
  }

  /** The MAC's queue of frames to send. */
  class MacQueue {
    const maxMsdu: int
    const fragThreshold: int      // in bytes, -1 for none
    const acceptLargePackets: bool
    const maxSize: int
    var totalSize: int

    constructor (maxMsdu: int, fragThreshold: int, acceptLargePackets: bool, maxSize: int)
      ensures totalSize == 0
    {
      this.maxMsdu, this.fragThreshold, this.acceptLargePackets, this.maxSize :=
        maxMsdu, fragThreshold, acceptLargePackets, maxSize;
      totalSize := 0;
    }

    /** A frame of this size fits a transmission unit, whole or in pieces, and the buffer. */
    predicate Admits(size: nat)
      reads this
    {
      0 < size && totalSize + size <= maxSize && (size <= maxMsdu || acceptLargePackets) &&
      (if fragThreshold != -1 && size > fragThreshold * 8 then fragThreshold * 8 <= maxMsdu else size <= maxMsdu)
    }

    method DataArrival(dataSize: nat) returns (queued: bool)
      modifies this`totalSize
      ensures queued == old(Admits(dataSize))
      ensures queued ==> 0 < dataSize && totalSize <= maxSize
      ensures queued && dataSize > maxMsdu ==>
                acceptLargePackets && fragThreshold != -1 && 8 * fragThreshold <= maxMsdu
      ensures dataSize > 0 && old(totalSize) + dataSize <= maxSize && dataSize <= maxMsdu ==>
                (queued <==> fragThreshold == -1 || dataSize <= 8 * fragThreshold || 8 * fragThreshold <= maxMsdu)
      ensures totalSize == old(totalSize) + if queued then dataSize else 0
    {
      var fragSize: int := dataSize;
      if dataSize > fragThreshold * 8 && fragThreshold != -1 {
        fragSize := fragThreshold * 8;
      }
      if (dataSize > maxMsdu && !acceptLargePackets) || fragSize > maxMsdu || dataSize == 0 ||
         totalSize + dataSize > maxSize {
        return false;
      }
      totalSize := totalSize + dataSize;
      queued := true;
    }
  }

  class SmfProcess {
    var defaultForward: bool
    var resequence: bool
    const duplicateFiltering: bool
    const updateAgeMax: u32
    var currentUpdateTime: u32
    const selectorList: array<byte>
    var selectorListLen: nat
    const duplicateTree: DupTree
    var recvCount: u32
    var mrcvCount: u32
    var dupsCount: u32
    var sentCount: u32
    ghost var known: Records  // what the duplicate tree knows
    ghost var clock: nat      // the unwrapped update time

    /** The buffers and what is known are fit for use. */
    ghost predicate Ready()
      reads this
    {
      selectorList.Length == SELECTOR_LIST_LEN_MAX && selectorListLen <= SELECTOR_LIST_LEN_MAX &&
      Config(duplicateTree.windowSize, duplicateTree.windowPastMax) && ValidRecords(known, duplicateTree.windowSize)
    }

    /** What is known, if the tree knows just that and has no flow older than a prune now
        would leave. */
    ghost function InStep(): Option<Records>
      reads this`known, this`currentUpdateTime, this`clock
      reads duplicateTree, duplicateTree.flowList, duplicateTree.flowList.flows
    {
      if forall k: nat {:trigger Shown(2, k)} | Shown(2, k) :: TreeInStep() then Some(known) else None
    }

    ghost predicate TreeInStep()
      reads this`known, this`currentUpdateTime, this`clock
      reads duplicateTree, duplicateTree.flowList, duplicateTree.flowList.flows
    {
      duplicateTree.Knows() == Some(known) && currentUpdateTime == Wrap32(clock) &&
      duplicateTree.now <= clock <= duplicateTree.oldest + updateAgeMax && updateAgeMax + PRUNE_INTERVAL < U32_RANGE
    }

    ghost predicate Valid()
      reads this, duplicateTree, duplicateTree.flowList, duplicateTree.flowList.flows
    {
      Ready() && InStep().Some?
    }

    /** The tree has gained no flow from elsewhere. */
    twostate predicate OnlyNewFlows()
      reads duplicateTree, duplicateTree.flowList
    {
      forall i | 0 <= i < |duplicateTree.flowList.flows| ::
        duplicateTree.flowList.flows[i] in old(duplicateTree.flowList.flows) || fresh(duplicateTree.flowList.flows[i])
    }

    /** The process is as the node `n` says. */
    ghost predicate Shows(n: Node)
      reads this, selectorList
    {
      Represents(n) && n.resequence == resequence && n.ageMax == updateAgeMax &&
      n.recv == recvCount && n.mrcv == mrcvCount
    }

    /** And as far as the multicast part of the receive path goes. */
    ghost predicate Represents(n: Node)
      reads this, selectorList
    {
      n.Valid() && n.defaultForward == defaultForward && n.filtering == duplicateFiltering &&
      n.selectors == selectorList[..] && n.selectorLen == selectorListLen && n.now == currentUpdateTime &&
      n.windowSize == duplicateTree.windowSize && n.windowPastMax == duplicateTree.windowPastMax &&
      n.tree == known && n.dups == dupsCount && n.sent == sentCount
    }

    constructor (filtering: bool, size: nat, pastMax: nat)
      requires Config(size, pastMax)
      ensures Valid() && |selectorList[..]| == SELECTOR_LIST_LEN_MAX
      ensures Shows(Node(false, false, filtering, 10, 0, selectorList[..], 0, size, pastMax, map[], 0, 0, 0, 0))
      ensures fresh(selectorList) && fresh(duplicateTree) && fresh(duplicateTree.flowList) &&
              duplicateTree.flowList.flows == []
    {
      defaultForward, resequence, duplicateFiltering := false, false, filtering;
      updateAgeMax, currentUpdateTime := 10, 0;
      selectorList := new byte[SELECTOR_LIST_LEN_MAX];
      selectorListLen := 0;
      duplicateTree := new DupTree(size, pastMax);
      known, clock := map[], 0;
      recvCount, mrcvCount, dupsCount, sentCount := 0, 0, 0, 0;
    }

    /** Consult the duplicate tree. */
    method IsDuplicate(ident: u32, src: u32) returns (dup: bool)
      requires Valid()
      modifies this`known, duplicateTree, duplicateTree.flowList, duplicateTree.flowList.flows
      ensures Valid() && OnlyNewFlows()
      ensures var tree := old(known);
              && dup == Refused(tree, duplicateTree.windowSize, duplicateTree.Past(), src, ident)
              && known == Recorded(tree, duplicateTree.windowSize, duplicateTree.Past(), currentUpdateTime, src, ident)
    {
      assert Shown(2, 0);
      RecordedValid(known, duplicateTree.windowSize, duplicateTree.Past(), currentUpdateTime, src, ident);
      dup := duplicateTree.IsDuplicate(currentUpdateTime, clock, ident, src);
      known := Recorded(known, duplicateTree.windowSize, duplicateTree.Past(), currentUpdateTime, src, ident);
    }

    method IsSelector(macAddr: u32) returns (found: bool)
      requires Ready()
      ensures found == Selects(selectorList[..], selectorListLen, macAddr)
    {
      var ptr := 0;
      ghost var slot: nat := 0;
      while ptr < selectorListLen
        invariant ptr == 4 * slot
        invariant ptr <= SELECTOR_LIST_LEN_MAX
        invariant forall k: nat | k < slot :: !SlotAt(selectorList[..], selectorListLen, macAddr, k)
      {
        var window := selectorList[ptr..ptr + MAC_ADDR_LEN];
        assert forall i | 0 <= i < MAC_ADDR_LEN :: window[i] == selectorList[..][4 * slot + i];
        if window == WordBytes(macAddr) {
          assert SlotAt(selectorList[..], selectorListLen, macAddr, slot);
          return true;
        }
        ptr := ptr + MAC_ADDR_LEN;
        slot := slot + 1;
      }
      return false;
    }

    method OnPktReceive(mem: WlanMem, ghost n: Node)
      requires Valid() && Shows(n)
      modifies this`recvCount, this`mrcvCount, this`known, this`dupsCount, this`sentCount
      modifies duplicateTree, duplicateTree.flowList, duplicateTree.flowList.flows
      modifies mem`forward, mem`isDuplicate
      ensures Valid() && OnlyNewFlows() && Shows(n.After(old(mem.View())))
      ensures mem.forward == n.Forwards(old(mem.View())) && mem.isDuplicate == n.Withholds(old(mem.View()))
      ensures var r := old(mem.View());
              r.pkt.target != Multicast || (r.direction != Inbound && !resequence) ==>
                !mem.forward && !mem.isDuplicate && known == old(known) &&
                mrcvCount == old(mrcvCount) && dupsCount == old(dupsCount) && sentCount == old(sentCount)
    {
      OnlyMulticastIsRelayed(n, mem.View());
      TakeIn(mem, n);
    }

    /** The packet is looked at if it is inbound or the node resequences. */
    method TakeIn(mem: WlanMem, ghost n: Node)
      requires Valid() && Shows(n)
      modifies this`recvCount, this`mrcvCount, this`known, this`dupsCount, this`sentCount
      modifies duplicateTree, duplicateTree.flowList, duplicateTree.flowList.flows
      modifies mem`forward, mem`isDuplicate
      ensures Valid() && OnlyNewFlows() && Shows(n.After(old(mem.View())))
      ensures mem.forward == n.Forwards(old(mem.View())) && mem.isDuplicate == n.Withholds(old(mem.View()))
    {
      ghost var r := mem.View();
      mem.forward, mem.isDuplicate := false, false;
      if mem.direction == Inbound || resequence {
        recvCount := Wrap32(recvCount + 1);
        OnCaptured(mem, n, r);
      }
    }

    /** The rest of the receive path, on a private copy of the packet. */
    method OnCaptured(mem: WlanMem, ghost n: Node, ghost r: Reception)
      requires Valid() && r == mem.View() && Represents(n) && n.Captured(r) && !mem.forward && !mem.isDuplicate
      modifies this`mrcvCount, this`known, this`dupsCount, this`sentCount, mem`forward, mem`isDuplicate
      modifies duplicateTree, duplicateTree.flowList, duplicateTree.flowList.flows
      ensures Valid() && OnlyNewFlows()
      ensures mrcvCount == if n.Reaches(r) then Wrap32(old(mrcvCount) + 1) else old(mrcvCount)
      ensures known == n.After(r).tree && dupsCount == n.After(r).dups && sentCount == n.After(r).sent
      ensures mem.forward == n.Forwards(r) && mem.isDuplicate == n.Withholds(r)
    {
      var ipPkt := mem.pkptr.Copy();
      if ipPkt.target == Multicast {
        mrcvCount := Wrap32(mrcvCount + 1);
        OnMulticast(mem, ipPkt, n, r);
      }
    }

    /** What the table says of a reception that reaches the multicast part. */
    lemma MulticastTable(n: Node, r: Reception)
      requires n.Valid() && n.Reaches(r)
      ensures var refused, eligible := n.Refuses(Id(r.pkt)), n.Eligible(r);
              var recorded := Recorded(n.tree, n.windowSize, n.Past(), n.now, r.pkt.src, r.pkt.ident);
              && n.After(r).tree == (if n.filtering || eligible then recorded else n.tree)
              && n.After(r).dups == (if eligible && refused then Wrap32(n.dups + 1) else n.dups)
              && n.After(r).sent == (if eligible && !refused then Wrap32(n.sent + 1) else n.sent)
              && n.Forwards(r) == (eligible && !refused)
              && n.Withholds(r) == (n.filtering && (refused || (n.Selected(r) && OwnPacket(r))))
              && (eligible ==> !OwnPacket(r))
    {
    }

    /** The multicast part of the receive path, on the private copy `ipPkt`. */
    method OnMulticast(mem: WlanMem, ipPkt: Packet, ghost n: Node, ghost r: Reception)
      requires Valid() && ipPkt != mem.pkptr && ipPkt.View() == r.pkt && r == mem.View()
      requires Represents(n) && n.Reaches(r) && !mem.forward && !mem.isDuplicate
      modifies this`known, this`dupsCount, this`sentCount, mem`forward, mem`isDuplicate, ipPkt
      modifies duplicateTree, duplicateTree.flowList, duplicateTree.flowList.flows
      ensures Valid() && OnlyNewFlows()
      ensures known == n.After(r).tree && dupsCount == n.After(r).dups && sentCount == n.After(r).sent
      ensures mem.forward == n.Forwards(r) && mem.isDuplicate == n.Withholds(r)
    {
      MulticastTable(n, r);
      if duplicateFiltering {
        mem.isDuplicate := IsDuplicate(ipPkt.ident, ipPkt.src);
      }
      var eligible := Screen(mem, ipPkt, n, r);
      if eligible {
        Decide(mem, ipPkt);
      }
    }

    /** Selection, own packets and TTL, in this order. */
    method Screen(mem: WlanMem, ipPkt: Packet, ghost n: Node, ghost r: Reception) returns (eligible: bool)
      requires Ready() && ipPkt != mem.pkptr && ipPkt.View() == r.pkt && r == mem.View()
      requires n.Valid() && n.defaultForward == defaultForward && n.filtering == duplicateFiltering && n.Reaches(r)
      requires n.selectors == selectorList[..] && n.selectorLen == selectorListLen
      modifies mem`isDuplicate, ipPkt`ttl
      ensures eligible == n.Eligible(r)
      ensures mem.isDuplicate == (old(mem.isDuplicate) || (n.filtering && n.Selected(r) && OwnPacket(r)))
    {
      var forward := defaultForward;
      if !forward {
        forward := IsSelector(mem.txAddr);
      }
      assert forward == n.Selected(r);
      if !forward {
        return false;
      }
      var locallyGenerated := mem.txAddr == mem.rxAddr;
      if !locallyGenerated {
        if ipPkt.version == 4 {
          if ipPkt.src == mem.txIpAddr {
            locallyGenerated := true;
          }
        }
      }
      assert locallyGenerated == OwnPacket(r);
      if locallyGenerated {
        if duplicateFiltering {
          mem.isDuplicate := true;
        }
        return false;
      }
      ipPkt.ttl := ipPkt.ttl - 1;
      eligible := ipPkt.ttl != 0;
    }

    /** Duplicates of what could be relayed, and the relay flag. */
    method Decide(mem: WlanMem, ipPkt: Packet)
      requires Valid() && !mem.forward
      modifies this`known, this`dupsCount, this`sentCount, mem`forward
      modifies duplicateTree, duplicateTree.flowList, duplicateTree.flowList.flows
      ensures Valid() && OnlyNewFlows()
      ensures var tree, size, past := old(known), duplicateTree.windowSize, duplicateTree.Past();
              var dup := if duplicateFiltering then mem.isDuplicate
                         else Refused(tree, size, past, ipPkt.src, ipPkt.ident);
              && known == (if duplicateFiltering then tree
                           else Recorded(tree, size, past, currentUpdateTime, ipPkt.src, ipPkt.ident))
              && dupsCount == (if dup then Wrap32(old(dupsCount) + 1) else old(dupsCount))
              && sentCount == (if dup then old(sentCount) else Wrap32(old(sentCount) + 1))
              && mem.forward == !dup
    {
      var dup := mem.isDuplicate;
      if !duplicateFiltering {
        dup := IsDuplicate(ipPkt.ident, ipPkt.src);
      }
      Count(mem, dup);
    }

    method Count(mem: WlanMem, dup: bool)
      modifies this`dupsCount, this`sentCount, mem`forward
      ensures dupsCount == (if dup then Wrap32(old(dupsCount) + 1) else old(dupsCount))
      ensures sentCount == (if dup then old(sentCount) else Wrap32(old(sentCount) + 1))
      ensures mem.forward == (!dup || old(mem.forward))
    {
      if dup {
        dupsCount := Wrap32(dupsCount + 1);
      } else {
        sentCount := Wrap32(sentCount + 1);
        mem.forward := true;
      }
    }

    /** The MAC's use of the relay: the frame queued for transmission is a fresh copy of the
        captured packet, so it carries the header exactly as received, unless the MAC has
        no place for it. */
    method CaptureFrame(seg: Packet, size: nat, mac: MacQueue, txAddr: u32, rxAddr: u32, myIp: u32, ghost n: Node)
      returns (relayed: Packet?, passedUp: bool)
      requires Valid() && Shows(n)
      modifies this`recvCount, this`mrcvCount, this`dupsCount, this`sentCount, this`known, mac`totalSize
      modifies duplicateTree, duplicateTree.flowList, duplicateTree.flowList.flows
      ensures Valid() && OnlyNewFlows()
      ensures var r := Reception(seg.View(), Inbound, txAddr, rxAddr, myIp);
              && Shows(n.After(r))
              && (relayed != null <==> n.Forwards(r) && old(mac.Admits(size)))
              && (passedUp <==> !n.Withholds(r))
      ensures relayed != null ==> fresh(relayed) && relayed.View() == seg.View()
      ensures mac.totalSize == old(mac.totalSize) + if relayed != null then size else 0
    {
      var mem := new WlanMem(seg, Inbound, txAddr, rxAddr, myIp);
      OnPktReceive(mem, n);
      relayed := QueueFrame(mem.forward, seg, size, mac);
      passedUp := !mem.isDuplicate;
    }

    method QueueFrame(forward: bool, seg: Packet, size: nat, mac: MacQueue) returns (relayed: Packet?)
      modifies mac`totalSize
      ensures relayed != null <==> forward && old(mac.Admits(size))
      ensures relayed != null ==> fresh(relayed) && relayed.View() == seg.View()
      ensures mac.totalSize == old(mac.totalSize) + if relayed != null then size else 0
    {
      relayed := null;
      if forward {
        var forwardPkt := seg.Copy();
        var queued := mac.DataArrival(size);
        if queued {
          relayed := forwardPkt;
        }
      }
    }

    /** The clock advances and the duplicate tree is pruned. */
    method OnPruneTimeout(ghost n: Node)
      requires Valid() && Shows(n)
      modifies this`currentUpdateTime, this`known, this`clock
      modifies duplicateTree, duplicateTree.flowList, duplicateTree.flowList.flows
      ensures Valid() && OnlyNewFlows() && Shows(n.AfterTimeout())
    {
      assert Shown(2, 0);
      NextTick(currentUpdateTime, clock);
      clock := clock + PRUNE_INTERVAL;
      currentUpdateTime := Wrap32(currentUpdateTime + PRUNE_INTERVAL);
      duplicateTree.Prune(currentUpdateTime, clock, updateAgeMax);
      known := Pruned(known, currentUpdateTime, updateAgeMax);
    }

    /** The "forwardMac" control message: overwrite the front of the selector buffer. */
    method OnForwardMac(arg: seq<byte>, ghost n: Node)
      requires Valid() && Shows(n)
      modifies this`selectorListLen, selectorList
      ensures Valid() && OnlyNewFlows() && Shows(n.AfterForwardMac(arg))
    {
      var argLen := |arg|;
      if argLen > SELECTOR_LIST_LEN_MAX {
        argLen := SELECTOR_LIST_LEN_MAX;
      }
      forall i | 0 <= i < argLen {
        selectorList[i] := arg[i];
      }
      assert selectorList[..] == arg[..argLen] + old(selectorList[..])[argLen..];
      selectorListLen := argLen;
    }

    /** The "defaultForward" control message. */
    method OnDefaultForward(on: bool, ghost n: Node)
      requires Valid() && Shows(n)
      modifies this`defaultForward
      ensures Valid() && OnlyNewFlows() && Shows(n.(defaultForward := on))
    {
      defaultForward := on;
    }
  }

  // ----- the selector list read back -----

  lemma {:induction false} MacListAt(addrs: seq<u32>, k: nat, i: nat)
    requires k < |addrs| && i < MAC_ADDR_LEN
    ensures |MacList(addrs)| == 4 * |addrs|
    ensures MacList(addrs)[4 * k + i] == WordBytes(addrs[k])[i]
  {
    if |addrs| > 1 {
      MacListAt(addrs[1..], if k == 0 then 0 else k - 1, i);
    }
  }

  /** How many stations of a list the buffer takes. */
  function Kept(addrs: seq<u32>): nat {
    if 4 * |addrs| <= SELECTOR_LIST_LEN_MAX then |addrs| else SELECTOR_LIST_LEN_MAX / 4
  }

  lemma ForwardMacBytes(n: Node, arg: seq<byte>, j: nat)
    requires n.Valid() && j < |arg| && j < SELECTOR_LIST_LEN_MAX
    ensures n.AfterForwardMac(arg).selectors[j] == arg[j]
  {
  }

  lemma {:induction false} MacListSize(addrs: seq<u32>)
    ensures |MacList(addrs)| == 4 * |addrs|
  {
    if addrs != [] { MacListSize(addrs[1..]); }
  }

  lemma SlotOfList(n: Node, addrs: seq<u32>, k: nat)
    requires n.Valid() && k < Kept(addrs)
    ensures var m := n.AfterForwardMac(MacList(addrs)); SlotAt(m.selectors, m.selectorLen, addrs[k], k)
  {
    MacListSize(addrs);
    var list := MacList(addrs);
    var m := n.AfterForwardMac(list);
    forall i | 0 <= i < MAC_ADDR_LEN
      ensures m.selectors[4 * k + i] == WordBytes(addrs[k])[i]
    {
      MacListAt(addrs, k, i);
      ForwardMacBytes(n, list, 4 * k + i);
    }
  }

  lemma SlotNames(n: Node, addrs: seq<u32>, addr: u32, k: nat)
    requires n.Valid() && k < Kept(addrs)
    requires var m := n.AfterForwardMac(MacList(addrs)); SlotAt(m.selectors, m.selectorLen, addr, k)
    ensures addr in addrs[..Kept(addrs)]
  {
    assert addrs[..Kept(addrs)][k] == addrs[k];
    SlotOfList(n, addrs, k);
    assert WordBytes(addrs[k]) == WordBytes(addr);
    WordRoundTrip(addrs[k]);
    WordRoundTrip(addr);
  }

  /** After a "forwardMac" message the node selects exactly the stations named, whatever the
      buffer held before; of an overlong list, exactly the first 150. */
  lemma SelectorListRoundTrip(n: Node, addrs: seq<u32>, addr: u32)
    requires n.Valid()
    ensures var m := n.AfterForwardMac(MacList(addrs));
            Selects(m.selectors, m.selectorLen, addr) <==> addr in addrs[..Kept(addrs)]
  {
    var m := n.AfterForwardMac(MacList(addrs));
    MacListSize(addrs);
    assert m.selectorLen == 4 * Kept(addrs);
    if addr in addrs[..Kept(addrs)] {
      var k: nat :| k < Kept(addrs) && addrs[k] == addr;
      SlotOfList(n, addrs, k);
    } else if k: nat :| SlotAt(m.selectors, m.selectorLen, addr, k) {
      SlotNames(n, addrs, addr, k);
    }
  }

  /** The byte at `j` after a "forwardMac" message: that of the message as far as it reaches, and
      behind it the one that was there. */
  function BytesAfter(n: Node, arg: seq<byte>, j: nat): byte
    requires j < |n.selectors|
  {
    if j < |arg| then arg[j] else n.selectors[j]
  }

  /** Whatever the length of the message, the node then selects exactly the addresses that lie at
      a multiple of four before its end, or before byte 600; the last may end in old bytes. */
  lemma SelectsAfterMessage(n: Node, arg: seq<byte>, addr: u32)
    requires n.Valid()
    ensures var m := n.AfterForwardMac(arg);
            Selects(m.selectors, m.selectorLen, addr) <==>
            exists k: nat :: AddressAt(n, arg, addr, k)
  {
    var m := n.AfterForwardMac(arg);
    forall j: nat | j < 600
      ensures m.selectors[j] == BytesAfter(n, arg, j)
    {
    }
    forall k: nat
      ensures SlotAt(m.selectors, m.selectorLen, addr, k) <==> AddressAt(n, arg, addr, k)
    {
    }
  }

  ghost predicate AddressAt(n: Node, arg: seq<byte>, addr: u32, k: nat)
    requires n.Valid()
  {
    4 * k < |arg| && 4 * k < 600 &&
    forall i: nat | i < 4 :: BytesAfter(n, arg, 4 * k + i) == WordBytes(addr)[i]
  }
}
