/** Where the buffers of every (sender, buffer) pair lie in a receiver's segment, and how a pointer finds its buffer. */
module LmbLayout {
  import opened Bytes
  import opened LmbFlow
  import opened LmbProtocol
  import Reassembly

  /** `segment_info`: base address and size of every node's segment. */
  datatype Segments = Segments(addr: seq<int>, size: seq<nat>) {
    predicate Valid() {
      |addr| == |size|
    }
  }

  /** `lmb_w_bases[i]` on node `me` for peer `peer`. */
  function WriteBase(seg: Segments, cfg: Config, me: nat, peer: nat, i: nat): int
    requires seg.Valid() && peer < |seg.addr|
  {
    seg.addr[peer] + (seg.size[peer] - cfg.lmbSize * (me * cfg.numLmbs + i + 1))
  }

  /** `lmb_r_bases[i]` on node `me` for peer `peer`. The size used is the peer's, not this node's. */
  function ReadBase(seg: Segments, cfg: Config, me: nat, peer: nat, i: nat): int
    requires seg.Valid() && me < |seg.addr| && peer < |seg.addr|
  {
    seg.addr[me] + (seg.size[peer] - cfg.lmbSize * (peer * cfg.numLmbs + i + 1))
  }

  /** All of `lmb_r_bases` that `me` keeps for `peer`. */
  function ReadBases(seg: Segments, cfg: Config, me: nat, peer: nat): seq<int>
    requires seg.Valid() && me < |seg.addr| && peer < |seg.addr|
  {
    seq(cfg.numLmbs, i requires 0 <= i => ReadBase(seg, cfg, me, peer, i))
  }

  /** Sender and receiver mean the same address exactly when their segments have the same size. */
  lemma BasesAgree(seg: Segments, cfg: Config, sender: nat, receiver: nat, i: nat)
    requires seg.Valid() && sender < |seg.addr| && receiver < |seg.addr|
    ensures WriteBase(seg, cfg, sender, receiver, i) == ReadBase(seg, cfg, receiver, sender, i)
        <==> seg.size[sender] == seg.size[receiver]
  {
  }

  /** The position of buffer `i` of sender `s` among all buffers of a segment, from the top. */
  function Slot(cfg: Config, s: nat, i: nat): nat {
    s * cfg.numLmbs + i
  }

  lemma SlotOrder(cfg: Config, s: nat, i: nat, s': nat, i': nat)
    requires i < cfg.numLmbs && i' < cfg.numLmbs && s < s'
    ensures Slot(cfg, s, i) < Slot(cfg, s', i')
  {
    assert (s + 1) * cfg.numLmbs <= s' * cfg.numLmbs by { MulMono(s + 1, s', cfg.numLmbs); }
    assert (s + 1) * cfg.numLmbs == s * cfg.numLmbs + cfg.numLmbs;
  }

  lemma SlotsApart(size: int, lmbSize: nat, p: nat, q: nat)
    requires p < q
    ensures size - lmbSize * (q + 1) + lmbSize <= size - lmbSize * (p + 1)
  {
    MulMono(p + 1, q, lmbSize);
    assert lmbSize * (q + 1) == q * lmbSize + lmbSize;
  }

  /** Buffers of different (sender, buffer) pairs do not overlap in the receiver's segment. */
  lemma LayoutDisjoint(seg: Segments, cfg: Config, receiver: nat, s: nat, i: nat, s': nat, i': nat)
    requires seg.Valid() && receiver < |seg.addr|
    requires i < cfg.numLmbs && i' < cfg.numLmbs && (s != s' || i != i')
    ensures Apart(WriteBase(seg, cfg, s, receiver, i), cfg.lmbSize, WriteBase(seg, cfg, s', receiver, i'), cfg.lmbSize)
  {
    if s < s' { SlotOrder(cfg, s, i, s', i'); }
    if s' < s { SlotOrder(cfg, s', i', s, i); }
    var p, q := Slot(cfg, s, i), Slot(cfg, s', i');
    if p < q {
      SlotsApart(seg.size[receiver], cfg.lmbSize, p, q);
    } else {
      SlotsApart(seg.size[receiver], cfg.lmbSize, q, p);
    }
  }

  /** All buffers lie in the top `nodes * num_lmbs * lmb_size` bytes of the segment. */
  lemma LayoutInTop(seg: Segments, cfg: Config, receiver: nat, s: nat, i: nat)
    requires seg.Valid() && receiver < |seg.addr| && s < |seg.addr| && i < cfg.numLmbs
    ensures var end, base := seg.addr[receiver] + seg.size[receiver], WriteBase(seg, cfg, s, receiver, i);
            end - |seg.addr| * cfg.numLmbs * cfg.lmbSize <= base && base + cfg.lmbSize <= end
  {
    var slot, all := Slot(cfg, s, i), |seg.addr| * cfg.numLmbs;
    assert slot + 1 <= all by {
      MulMono(s + 1, |seg.addr|, cfg.numLmbs);
      assert (s + 1) * cfg.numLmbs == s * cfg.numLmbs + cfg.numLmbs;
    }
    MulMono(slot + 1, all, cfg.lmbSize);
    assert cfg.lmbSize * (slot + 1) == slot * cfg.lmbSize + cfg.lmbSize;
  }

  /** The link from `sender` as `LmbProtocol` sees it: offsets in the receiver's segment. */
  function LinkSetup(seg: Segments, cfg: Config, k: nat, sender: nat, receiver: nat): Setup
    requires seg.Valid() && receiver < |seg.addr| && cfg.lmbSize * (sender * cfg.numLmbs) <= seg.size[receiver]
  {
    Setup(cfg, k, seg.size[receiver] - cfg.lmbSize * (sender * cfg.numLmbs))
  }

  /**
   With equal segment sizes, the receiver's scan over `lmb_r_bases` recovers the buffer in which the
   sender placed a message, from any pointer inside it.
   */
  lemma {:induction false} ScanRecovers(seg: Segments, cfg: Config, k: nat, sender: nat, receiver: nat, i: nat,
                                             ptr: int)
    requires seg.Valid() && sender < |seg.addr| && receiver < |seg.addr|
    requires seg.size[sender] == seg.size[receiver]
    requires cfg.Valid() && 0 < k && |seg.addr| * cfg.numLmbs * cfg.lmbSize <= seg.size[receiver]
    requires i < cfg.numLmbs
    requires WriteBase(seg, cfg, sender, receiver, i) <= ptr < WriteBase(seg, cfg, sender, receiver, i) + cfg.lmbSize
    ensures cfg.lmbSize * (sender * cfg.numLmbs) <= seg.size[receiver]
    ensures LinkSetup(seg, cfg, k, sender, receiver).Valid()
    ensures Scan(ReadBases(seg, cfg, receiver, sender), cfg.lmbSize, ptr, 0) == i
    ensures FindBuffer(LinkSetup(seg, cfg, k, sender, receiver), ptr - seg.addr[receiver]) == i
  {
    LinkFits(seg, cfg, k, sender, receiver);
    var st := LinkSetup(seg, cfg, k, sender, receiver);
    forall b: nat | b < cfg.numLmbs
      ensures ReadBase(seg, cfg, receiver, sender, b) == seg.addr[receiver] + BufStart(st, b)
    {
      BaseInLink(seg, cfg, k, sender, receiver, b);
    }
    BasesAgree(seg, cfg, sender, receiver, i);
    FindBufferFinds(st, ptr - seg.addr[receiver]);
    assert InBuffer(st, i, ptr - seg.addr[receiver]);
    ScanShift(ReadBases(seg, cfg, receiver, sender), Starts(st), cfg.lmbSize, ptr, seg.addr[receiver], 0);
  }

  lemma LinkFits(seg: Segments, cfg: Config, k: nat, sender: nat, receiver: nat)
    requires seg.Valid() && sender < |seg.addr| && receiver < |seg.addr|
    requires cfg.Valid() && 0 < k && |seg.addr| * cfg.numLmbs * cfg.lmbSize <= seg.size[receiver]
    ensures cfg.lmbSize * (sender * cfg.numLmbs) <= seg.size[receiver]
    ensures LinkSetup(seg, cfg, k, sender, receiver).Valid()
  {
    var below, all := sender * cfg.numLmbs, |seg.addr| * cfg.numLmbs;
    MulMono(sender + 1, |seg.addr|, cfg.numLmbs);
    assert (sender + 1) * cfg.numLmbs == below + cfg.numLmbs;
    MulMono(below + cfg.numLmbs, all, cfg.lmbSize);
    assert (below + cfg.numLmbs) * cfg.lmbSize == cfg.lmbSize * below + cfg.numLmbs * cfg.lmbSize;
  }

  /** A read base, as an offset in the receiver's segment. */
  lemma BaseInLink(seg: Segments, cfg: Config, k: nat, sender: nat, receiver: nat, b: nat)
    requires seg.Valid() && sender < |seg.addr| && receiver < |seg.addr| && seg.size[sender] == seg.size[receiver]
    requires cfg.lmbSize * (sender * cfg.numLmbs) <= seg.size[receiver]
    ensures ReadBase(seg, cfg, receiver, sender, b)
         == seg.addr[receiver] + BufStart(LinkSetup(seg, cfg, k, sender, receiver), b)
  {
    var below := sender * cfg.numLmbs;
    assert cfg.lmbSize * (below + b + 1) == cfg.lmbSize * below + cfg.lmbSize * (b + 1);
  }
}
