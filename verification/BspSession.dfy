/**
  Whole runs of BSP: a sender wrapping a list of commands, and a receiver offered any byte
  strings at all, most of which it may reject.

  The module documentation of `bsp.rs` says that the MAC chain makes a sequence of blocks
  indivisible. Here that is a theorem about every run, with the exact condition under which it
  holds.
 */
module BspSession {
  import opened Bytes
  import opened Primitives
  import opened BspKeys
  import opened Wire
  import opened Bsp

  // ---------- the sender ----------

  datatype Command = Command(protection: Protection, tag: u32, plaintext: bytes)

  /** The chaining value before block `k` of a run that starts at `chain`. */
  function ChainAt(chain: bytes, sent: seq<Step<ProtectedTlv>>, k: nat): bytes
    requires k <= |sent|
  {
    if k == 0 then chain else sent[k - 1].chain
  }

  /** `sent` is what wrapping `commands` one after the other gives, each succeeding. */
  ghost predicate IsSession(
    p: Suite, keys: BspSessionKeys, chain: bytes, commands: seq<Command>, sent: seq<Step<ProtectedTlv>>)
  {
    && |sent| == |commands|
    && forall i :: 0 <= i < |sent| ==> IsStep(p, keys, chain, commands, sent, i)
  }

  /** Block `i` of the run is command `i` wrapped at the chaining value before it. */
  ghost predicate IsStep(
    p: Suite, keys: BspSessionKeys, chain: bytes, commands: seq<Command>, sent: seq<Step<ProtectedTlv>>, i: nat)
    requires i < |sent| == |commands|
  {
    Wrap(p, keys, commands[i].protection, commands[i].tag, commands[i].plaintext, ChainAt(chain, sent, i))
    == Ok(sent[i])
  }

  ghost predicate TagsAreWellFormed(commands: seq<Command>) {
    forall i :: 0 <= i < |commands| ==> IsWellFormedTag(commands[i].tag as nat)
  }

  /** No two chaining values of the run are equal, the initial one included. */
  ghost predicate ChainsAreDistinct(chain: bytes, sent: seq<Step<ProtectedTlv>>) {
    forall i, j :: 0 <= i < j <= |sent| ==> ChainAt(chain, sent, i) != ChainAt(chain, sent, j)
  }

  function Tlvs(sent: seq<Step<ProtectedTlv>>): (r: seq<ProtectedTlv>)
    ensures |r| == |sent|
  {
    seq(|sent|, i requires 0 <= i < |sent| => sent[i].out)
  }

  // ---------- the receiver ----------

  /** Bytes from the wire and the protection the receiver takes them to be under. */
  datatype Offer = Offer(wire: bytes, protection: Protection)

  datatype Delivery = Delivery(tlv: ProtectedTlv, protection: Protection, plaintext: bytes)

  datatype Receiver = Receiver(chain: bytes, delivered: seq<Delivery>)

  function Receive(p: Suite, keys: BspSessionKeys, s: Receiver, offer: Offer): Receiver {
    match Decode(offer.wire)
    case Err(_) => s
    case Ok(tlv) =>
      match Unwrap(p, keys, offer.protection, tlv, s.chain)
      case Err(_) => s
      case Ok(step) => Receiver(step.chain, s.delivered + [Delivery(tlv, offer.protection, step.out)])
  }

  /** One step of the receiver, as a caller of the in-place functions takes it. */
  method ReceiveInPlace(
    p: Suite, keys: BspSessionKeys, offer: Offer, chaining: array<byte>, ghost delivered: seq<Delivery>)
    returns (r: Option<Delivery>)
    modifies chaining
    ensures Receiver(chaining[..], delivered + (if r.Some? then [r.value] else []))
            == Receive(p, keys, Receiver(old(chaining[..]), delivered), offer)
  {
    assert delivered + [] == delivered;
    var tlv := Decode(offer.wire);
    if tlv.Err? {
      return None;
    }
    var plaintext: Result<bytes>;
    match offer.protection {
      case MacAndEncrypt(n) => plaintext := UnwrapEncrypt(p, keys, tlv.value, n, chaining);
      case MacOnly => plaintext := UnwrapMacOnly(p, keys, tlv.value, chaining);
    }
    if plaintext.Err? {
      return None;
    }
    r := Some(Delivery(tlv.value, offer.protection, plaintext.value));
  }

  /** The receiver after all of `offers`, in order, from the chaining value `chain`. */
  function Run(p: Suite, keys: BspSessionKeys, chain: bytes, offers: seq<Offer>): Receiver {
    if offers == [] then Receiver(chain, [])
    else Receive(p, keys, Run(p, keys, chain, offers[..|offers| - 1]), offers[|offers| - 1])
  }

  lemma RunOneMore(p: Suite, keys: BspSessionKeys, chain: bytes, offers: seq<Offer>, k: nat)
    requires k < |offers|
    ensures Run(p, keys, chain, offers[..k + 1]) == Receive(p, keys, Run(p, keys, chain, offers[..k]), offers[k])
  {
    assert offers[..k + 1][..k] == offers[..k];
  }

  function DeliveredTlvs(s: Receiver): (r: seq<ProtectedTlv>)
    ensures |r| == |s.delivered|
  {
    seq(|s.delivered|, i requires 0 <= i < |s.delivered| => s.delivered[i].tlv)
  }

  /** In any run, the chaining value is the initial one or begins with the last accepted C-MAC. */
  lemma {:induction false} ChainFollowsDeliveries(p: Suite, keys: BspSessionKeys, chain: bytes, offers: seq<Offer>)
    ensures var s := Run(p, keys, chain, offers);
            if s.delivered == [] then s.chain == chain
            else |s.chain| == KEY_LEN && s.chain[..CMAC_LEN] == s.delivered[|s.delivered| - 1].tlv.cmac
  {
    if offers != [] {
      ChainFollowsDeliveries(p, keys, chain, offers[..|offers| - 1]);
    }
  }

  // ---------- synchronisation ----------

  /** The offers carry the session's blocks in order, each with any bytes after it. */
  ghost predicate Carry(offers: seq<Offer>, commands: seq<Command>, sent: seq<Step<ProtectedTlv>>) {
    && |offers| == |commands| == |sent|
    && forall i :: 0 <= i < |offers| ==>
         offers[i].protection == commands[i].protection && Encode(sent[i].out) <= offers[i].wire
  }

  lemma NextBlockIsAccepted(
    p: Suite, keys: BspSessionKeys, chain: bytes, commands: seq<Command>, sent: seq<Step<ProtectedTlv>>,
    k: nat, s: Receiver, offer: Offer)
    requires p.AesIsPermutation()
    requires IsSession(p, keys, chain, commands, sent) && TagsAreWellFormed(commands)
    requires k < |sent| && s.chain == ChainAt(chain, sent, k)
    requires offer.protection == commands[k].protection && Encode(sent[k].out) <= offer.wire
    ensures Receive(p, keys, s, offer)
            == Receiver(sent[k].chain,
                        s.delivered + [Delivery(sent[k].out, commands[k].protection, commands[k].plaintext)])
  {
    var c := commands[k];
    assert IsStep(p, keys, chain, commands, sent, k);
    MacCoversTheWire(p, keys, c.protection, c.tag, c.plaintext, s.chain);
    UnwrapUndoesWrap(p, keys, c.protection, c.tag, c.plaintext, s.chain);
    assert offer.wire == Encode(sent[k].out) + offer.wire[|Encode(sent[k].out)|..];
    FramingRoundTrip(sent[k].out, offer.wire[|Encode(sent[k].out)|..]);
  }

  /** The first blocks of a session are a session with the same chaining values. */
  lemma SessionPrefix(
    p: Suite, keys: BspSessionKeys, chain: bytes, commands: seq<Command>, sent: seq<Step<ProtectedTlv>>, k: nat)
    requires IsSession(p, keys, chain, commands, sent) && k <= |sent|
    ensures IsSession(p, keys, chain, commands[..k], sent[..k])
    ensures forall i :: 0 <= i <= k ==> ChainAt(chain, sent[..k], i) == ChainAt(chain, sent, i)
  {
    forall i | 0 <= i < k
      ensures IsStep(p, keys, chain, commands[..k], sent[..k], i)
    {
      assert IsStep(p, keys, chain, commands, sent, i);
      assert ChainAt(chain, sent[..k], i) == ChainAt(chain, sent, i);
    }
  }

  /** What a receiver that recovers a whole session has delivered. */
  function AllDelivered(commands: seq<Command>, sent: seq<Step<ProtectedTlv>>): (r: seq<Delivery>)
    requires |commands| == |sent|
    ensures |r| == |sent|
  {
    seq(|sent|, i requires 0 <= i < |sent| => Delivery(sent[i].out, commands[i].protection, commands[i].plaintext))
  }

  /** The receiver in step with the session before block `k`. */
  function InStep(chain: bytes, commands: seq<Command>, sent: seq<Step<ProtectedTlv>>, k: nat): Receiver
    requires k <= |sent| == |commands|
  {
    Receiver(ChainAt(chain, sent, k), AllDelivered(commands, sent)[..k])
  }

  lemma NextBlockKeepsStep(
    p: Suite, keys: BspSessionKeys, chain: bytes, commands: seq<Command>, sent: seq<Step<ProtectedTlv>>,
    k: nat, offer: Offer)
    requires p.AesIsPermutation()
    requires IsSession(p, keys, chain, commands, sent) && TagsAreWellFormed(commands)
    requires k < |sent|
    requires offer.protection == commands[k].protection && Encode(sent[k].out) <= offer.wire
    ensures Receive(p, keys, InStep(chain, commands, sent, k), offer) == InStep(chain, commands, sent, k + 1)
  {
    NextBlockIsAccepted(p, keys, chain, commands, sent, k, InStep(chain, commands, sent, k), offer);
    InStepGrows(chain, commands, sent, k);
  }

  lemma InStepGrows(chain: bytes, commands: seq<Command>, sent: seq<Step<ProtectedTlv>>, k: nat)
    requires k < |sent| == |commands|
    ensures InStep(chain, commands, sent, k + 1)
            == Receiver(sent[k].chain,
                        InStep(chain, commands, sent, k).delivered
                        + [Delivery(sent[k].out, commands[k].protection, commands[k].plaintext)])
  {
    var all := AllDelivered(commands, sent);
    assert all[..k + 1] == all[..k] + [all[k]];
  }

  /**
    For every session, the receiver recovers every plaintext in order, and its chaining value
    equals the sender's after every block.
   */
  lemma {:induction false} SessionsSynchronise(
    p: Suite, keys: BspSessionKeys, chain: bytes, commands: seq<Command>, sent: seq<Step<ProtectedTlv>>,
    offers: seq<Offer>, k: nat)
    requires p.AesIsPermutation()
    requires IsSession(p, keys, chain, commands, sent) && TagsAreWellFormed(commands)
    requires Carry(offers, commands, sent)
    requires k <= |offers|
    ensures Run(p, keys, chain, offers[..k]) == InStep(chain, commands, sent, k)
    decreases k
  {
    if k > 0 {
      SessionsSynchronise(p, keys, chain, commands, sent, offers, k - 1);
      RunKeepsStep(p, keys, chain, commands, sent, offers, k - 1);
    }
  }

  lemma RunKeepsStep(
    p: Suite, keys: BspSessionKeys, chain: bytes, commands: seq<Command>, sent: seq<Step<ProtectedTlv>>,
    offers: seq<Offer>, k: nat)
    requires p.AesIsPermutation()
    requires IsSession(p, keys, chain, commands, sent) && TagsAreWellFormed(commands)
    requires Carry(offers, commands, sent)
    requires k < |offers| && Run(p, keys, chain, offers[..k]) == InStep(chain, commands, sent, k)
    ensures Run(p, keys, chain, offers[..k + 1]) == InStep(chain, commands, sent, k + 1)
  {
    RunOneMore(p, keys, chain, offers, k);
    NextBlockKeepsStep(p, keys, chain, commands, sent, k, offers[k]);
  }

  ghost predicate DeliveredTagsAreWellFormed(ds: seq<Delivery>) {
    forall i :: 0 <= i < |ds| ==> IsWellFormedTag(ds[i].tlv.tag as nat)
  }

  /** Whatever a receiver delivers has a tag the framing can read. */
  lemma {:induction false} RunDeliversWellFormedTags(p: Suite, keys: BspSessionKeys, chain: bytes, offers: seq<Offer>)
    ensures DeliveredTagsAreWellFormed(Run(p, keys, chain, offers).delivered)
  {
    if offers != [] {
      var front := Run(p, keys, chain, offers[..|offers| - 1]);
      RunDeliversWellFormedTags(p, keys, chain, offers[..|offers| - 1]);
      var d := ReceiveCases(p, keys, front, offers[|offers| - 1]);
    }
  }

  /** A faithfully carried session is recovered in full exactly when all its tags are well formed. */
  lemma SessionsSynchroniseExactly(
    p: Suite, keys: BspSessionKeys, chain: bytes, commands: seq<Command>, sent: seq<Step<ProtectedTlv>>,
    offers: seq<Offer>)
    requires p.AesIsPermutation()
    requires IsSession(p, keys, chain, commands, sent) && Carry(offers, commands, sent)
    ensures Run(p, keys, chain, offers).delivered == AllDelivered(commands, sent) <==> TagsAreWellFormed(commands)
  {
    if TagsAreWellFormed(commands) {
      SessionsSynchronise(p, keys, chain, commands, sent, offers, |offers|);
      assert offers[..|offers|] == offers;
      assert AllDelivered(commands, sent)[..|offers|] == AllDelivered(commands, sent);
    }
    RunDeliversWellFormedTags(p, keys, chain, offers);
    forall i | 0 <= i < |commands|
      ensures AllDelivered(commands, sent)[i].tlv.tag == commands[i].tag
    {
      SentBlock(p, keys, chain, commands, sent, i);
    }
    TagsOfDelivered(commands, AllDelivered(commands, sent));
  }

  lemma TagsOfDelivered(commands: seq<Command>, ds: seq<Delivery>)
    requires |commands| == |ds| && forall i :: 0 <= i < |ds| ==> ds[i].tlv.tag == commands[i].tag
    ensures DeliveredTagsAreWellFormed(ds) <==> TagsAreWellFormed(commands)
  {
  }

  // ---------- indivisibility ----------

  /** The MAC input of a framed block. */
  function BlockInput(chain: bytes, tlv: ProtectedTlv): bytes {
    MacInput(chain, tlv.tag, |tlv.data| + CMAC_LEN, tlv.data)
  }

  ghost predicate MacVerifies(p: Suite, keys: BspSessionKeys, chain: bytes, tlv: ProtectedTlv) {
    var mac := BlockCmac(p, keys.sMac, chain, tlv.tag, tlv.data);
    mac.Ok? && mac.value[..CMAC_LEN] == tlv.cmac
  }

  /** Some block of the session had this MAC input. */
  ghost predicate WasMaced(chain: bytes, sent: seq<Step<ProtectedTlv>>, input: bytes) {
    exists i :: 0 <= i < |sent| && BlockInput(ChainAt(chain, sent, i), sent[i].out) == input
  }

  /**
    No offer of the run carries a forged MAC: where one verifies at the receiver's chaining value
    of that moment, the sender computed that MAC.
   */
  ghost predicate Unforged(
    p: Suite, keys: BspSessionKeys, chain: bytes, sent: seq<Step<ProtectedTlv>>, offers: seq<Offer>)
  {
    forall j :: 0 <= j < |offers| ==> IsGenuine(p, keys, chain, sent, Run(p, keys, chain, offers[..j]).chain, offers[j])
  }

  ghost predicate IsGenuine(
    p: Suite, keys: BspSessionKeys, chain: bytes, sent: seq<Step<ProtectedTlv>>, at: bytes, offer: Offer)
  {
    var r := Decode(offer.wire);
    r.Ok? && MacVerifies(p, keys, at, r.value) ==> WasMaced(chain, sent, BlockInput(at, r.value))
  }

  /** What a session says of one of its blocks. */
  lemma SentBlock(
    p: Suite, keys: BspSessionKeys, chain: bytes, commands: seq<Command>, sent: seq<Step<ProtectedTlv>>, i: nat)
    requires IsSession(p, keys, chain, commands, sent) && i < |sent|
    ensures var at, tlv := ChainAt(chain, sent, i), sent[i].out;
            && |at| == KEY_LEN
            && tlv.tag == commands[i].tag
            && |tlv.data| + CMAC_LEN <= MAX_LENGTH
            && |keys.sMac| == KEY_LEN
            && sent[i].chain == p.cmac(keys.sMac, BlockInput(at, tlv))
            && tlv.cmac == sent[i].chain[..CMAC_LEN]
  {
    assert IsStep(p, keys, chain, commands, sent, i);
  }

  /** When the MAC of a decoded block verifies. */
  lemma VerifiedBlock(p: Suite, keys: BspSessionKeys, at: bytes, tlv: ProtectedTlv)
    requires MacVerifies(p, keys, at, tlv)
    ensures |at| == KEY_LEN && |keys.sMac| == KEY_LEN && |tlv.data| + CMAC_LEN <= MAX_LENGTH
    ensures tlv.cmac == p.cmac(keys.sMac, BlockInput(at, tlv))[..CMAC_LEN]
  {
  }

  lemma BlockInputIsInjective(at: bytes, tlv: ProtectedTlv, at': bytes, tlv': ProtectedTlv)
    requires |at| == |at'| == KEY_LEN
    requires IsWellFormedTag(tlv.tag as nat) && IsWellFormedTag(tlv'.tag as nat)
    requires |tlv.data| + CMAC_LEN <= MAX_LENGTH && |tlv'.data| + CMAC_LEN <= MAX_LENGTH
    requires BlockInput(at, tlv) == BlockInput(at', tlv')
    ensures at == at' && tlv.tag == tlv'.tag && tlv.data == tlv'.data
  {
    MacInputIsInjective(at, tlv.tag, |tlv.data| + CMAC_LEN, tlv.data, at', tlv'.tag, |tlv'.data| + CMAC_LEN, tlv'.data);
  }

  /** A block that verifies at the receiver's chain and was MACed as block `i` is the block sent next, and no other. */
  lemma GenuineOfferIsNextBlock(
    p: Suite, keys: BspSessionKeys, chain: bytes, commands: seq<Command>, sent: seq<Step<ProtectedTlv>>,
    i: nat, k: nat, tlv: ProtectedTlv)
    requires IsSession(p, keys, chain, commands, sent) && TagsAreWellFormed(commands)
    requires ChainsAreDistinct(chain, sent)
    requires i < |sent| && k <= |sent|
    requires IsWellFormedTag(tlv.tag as nat)
    requires MacVerifies(p, keys, ChainAt(chain, sent, k), tlv)
    requires BlockInput(ChainAt(chain, sent, i), sent[i].out) == BlockInput(ChainAt(chain, sent, k), tlv)
    ensures i == k && tlv == sent[k].out
  {
    var at := ChainAt(chain, sent, k);
    VerifiedBlock(p, keys, at, tlv);
    SentBlock(p, keys, chain, commands, sent, i);
    BlockInputIsInjective(ChainAt(chain, sent, i), sent[i].out, at, tlv);
  }

  /** What a receiver's step does, in terms of the MAC check and of the block unwrapped. */
  lemma ReceiveCases(p: Suite, keys: BspSessionKeys, s: Receiver, offer: Offer) returns (d: Delivery)
    ensures Receive(p, keys, s, offer) != s ==>
              && Decode(offer.wire) == Ok(d.tlv)
              && IsWellFormedTag(d.tlv.tag as nat)
              && MacVerifies(p, keys, s.chain, d.tlv)
              && Unwrap(p, keys, d.protection, d.tlv, s.chain)
                 == Ok(Step(d.plaintext, p.cmac(keys.sMac, BlockInput(s.chain, d.tlv))))
              && Receive(p, keys, s, offer)
                 == Receiver(p.cmac(keys.sMac, BlockInput(s.chain, d.tlv)), s.delivered + [d])
  {
    if Receive(p, keys, s, offer) == s {
      d := Delivery(ProtectedTlv(0, [], []), MacOnly, []);
    } else {
      var tlv := Decode(offer.wire).value;
      d := Delivery(tlv, offer.protection, Unwrap(p, keys, offer.protection, tlv, s.chain).value.out);
      DecodedIsStable(offer.wire, []);
    }
  }

  /** The receiver stands after `k` blocks of the session, having accepted exactly those. */
  ghost predicate StandsAfter(
    chain: bytes, commands: seq<Command>, sent: seq<Step<ProtectedTlv>>, s: Receiver, k: nat)
    requires |commands| == |sent|
  {
    && k == |s.delivered| <= |sent|
    && s.chain == ChainAt(chain, sent, k)
    && forall i :: 0 <= i < k ==> s.delivered[i].tlv == sent[i].out && DeliveredAsSent(commands[i], s.delivered[i])
  }

  /** Where an offer changes the receiver's state, it was the block sent next. */
  lemma AcceptedIsNextBlock(
    p: Suite, keys: BspSessionKeys, chain: bytes, commands: seq<Command>, sent: seq<Step<ProtectedTlv>>,
    k: nat, s: Receiver, offer: Offer) returns (d: Delivery)
    requires p.AesIsPermutation()
    requires IsSession(p, keys, chain, commands, sent) && TagsAreWellFormed(commands)
    requires ChainsAreDistinct(chain, sent)
    requires k <= |sent| && s.chain == ChainAt(chain, sent, k)
    requires IsGenuine(p, keys, chain, sent, s.chain, offer)
    ensures Receive(p, keys, s, offer) != s ==>
              && k < |sent|
              && Receive(p, keys, s, offer) == Receiver(sent[k].chain, s.delivered + [d])
              && d.tlv == sent[k].out
              && DeliveredAsSent(commands[k], d)
  {
    d := ReceiveCases(p, keys, s, offer);
    if Receive(p, keys, s, offer) != s {
      var i :| 0 <= i < |sent| && BlockInput(ChainAt(chain, sent, i), sent[i].out) == BlockInput(s.chain, d.tlv);
      GenuineOfferIsNextBlock(p, keys, chain, commands, sent, i, k, d.tlv);
      SentBlock(p, keys, chain, commands, sent, k);
      UnwrappedAsWrapped(p, keys, chain, commands, sent, k, d);
    }
  }

  lemma ReceiveKeepsStanding(
    p: Suite, keys: BspSessionKeys, chain: bytes, commands: seq<Command>, sent: seq<Step<ProtectedTlv>>,
    s: Receiver, offer: Offer)
    requires p.AesIsPermutation()
    requires IsSession(p, keys, chain, commands, sent) && TagsAreWellFormed(commands)
    requires ChainsAreDistinct(chain, sent)
    requires StandsAfter(chain, commands, sent, s, |s.delivered|)
    requires IsGenuine(p, keys, chain, sent, s.chain, offer)
    ensures var s' := Receive(p, keys, s, offer); StandsAfter(chain, commands, sent, s', |s'.delivered|)
  {
    var d := AcceptedIsNextBlock(p, keys, chain, commands, sent, |s.delivered|, s, offer);
    if Receive(p, keys, s, offer) != s {
      StandsOneFurther(chain, commands, sent, s, |s.delivered|, d);
    }
  }

  lemma StandsOneFurther(
    chain: bytes, commands: seq<Command>, sent: seq<Step<ProtectedTlv>>, s: Receiver, k: nat, d: Delivery)
    requires k < |sent| == |commands|
    requires StandsAfter(chain, commands, sent, s, k)
    requires d.tlv == sent[k].out && DeliveredAsSent(commands[k], d)
    ensures StandsAfter(chain, commands, sent, Receiver(sent[k].chain, s.delivered + [d]), k + 1)
  {
  }

  /**
    Indivisibility: whatever is offered, the accepted blocks are a prefix of those sent, none
    reordered, dropped, duplicated or relabelled, and the receiver stands where the sender stood
    after that prefix. Each is returned as the plaintext that was protected exactly when it is
    unwrapped under the protection it was wrapped with, block number included.
   */
  lemma {:induction false} AcceptedBlocksArePrefix(
    p: Suite, keys: BspSessionKeys, chain: bytes, commands: seq<Command>, sent: seq<Step<ProtectedTlv>>,
    offers: seq<Offer>)
    requires p.AesIsPermutation()
    requires IsSession(p, keys, chain, commands, sent) && TagsAreWellFormed(commands)
    requires ChainsAreDistinct(chain, sent)
    requires Unforged(p, keys, chain, sent, offers)
    ensures DeliveredTlvs(Run(p, keys, chain, offers)) <= Tlvs(sent)
    ensures var s := Run(p, keys, chain, offers); StandsAfter(chain, commands, sent, s, |s.delivered|)
    decreases |offers|
  {
    if offers != [] {
      var n := |offers| - 1;
      assert forall j :: 0 <= j <= n ==> offers[..n][..j] == offers[..j];
      assert Unforged(p, keys, chain, sent, offers[..n]);
      AcceptedBlocksArePrefix(p, keys, chain, commands, sent, offers[..n]);
      ReceiveKeepsStanding(p, keys, chain, commands, sent, Run(p, keys, chain, offers[..n]), offers[n]);
    }
  }

  /** The plaintext comes back under the protection it was wrapped with, and under no other. */
  predicate DeliveredAsSent(command: Command, d: Delivery) {
    d.plaintext == command.plaintext <==> d.protection == command.protection
  }

  lemma UnwrappedAsWrapped(
    p: Suite, keys: BspSessionKeys, chain: bytes, commands: seq<Command>, sent: seq<Step<ProtectedTlv>>,
    k: nat, d: Delivery)
    requires p.AesIsPermutation()
    requires IsSession(p, keys, chain, commands, sent) && k < |sent|
    requires d.tlv == sent[k].out
    requires Unwrap(p, keys, d.protection, d.tlv, ChainAt(chain, sent, k)).Ok?
    requires Unwrap(p, keys, d.protection, d.tlv, ChainAt(chain, sent, k)).value.out == d.plaintext
    ensures DeliveredAsSent(commands[k], d)
  {
    var c := commands[k];
    assert IsStep(p, keys, chain, commands, sent, k);
    RecoveredOnlyAsCarried(p, keys, c.protection, d.protection, c.plaintext);
  }

  // ---------- the exact condition ----------

  /** The first `k` blocks of a session, offered faithfully. */
  function Faithful(commands: seq<Command>, sent: seq<Step<ProtectedTlv>>, k: nat): seq<Offer>
    requires k <= |sent| == |commands|
  {
    seq(k, i requires 0 <= i < k => Offer(Encode(sent[i].out), commands[i].protection))
  }

  lemma FaithfulRun(
    p: Suite, keys: BspSessionKeys, chain: bytes, commands: seq<Command>, sent: seq<Step<ProtectedTlv>>, k: nat,
    j: nat)
    requires p.AesIsPermutation()
    requires IsSession(p, keys, chain, commands, sent) && TagsAreWellFormed(commands)
    requires j <= k <= |sent|
    ensures var s := Run(p, keys, chain, Faithful(commands, sent, k)[..j]);
            s.chain == ChainAt(chain, sent, j) && DeliveredTlvs(s) == Tlvs(sent)[..j]
  {
    SessionPrefix(p, keys, chain, commands, sent, k);
    SessionsSynchronise(p, keys, chain, commands[..k], sent[..k], Faithful(commands, sent, k), j);
  }

  /** The encoding of a sent block is genuine wherever its chaining value recurs. */
  lemma OwnBlockIsGenuine(
    p: Suite, keys: BspSessionKeys, chain: bytes, commands: seq<Command>, sent: seq<Step<ProtectedTlv>>,
    i: nat, at: bytes, offer: Offer)
    requires IsSession(p, keys, chain, commands, sent) && TagsAreWellFormed(commands)
    requires i < |sent| && at == ChainAt(chain, sent, i) && offer.wire == Encode(sent[i].out)
    ensures Decode(offer.wire) == Ok(sent[i].out)
    ensures IsGenuine(p, keys, chain, sent, at, offer)
  {
    var c := commands[i];
    assert IsStep(p, keys, chain, commands, sent, i);
    MacCoversTheWire(p, keys, c.protection, c.tag, c.plaintext, at);
    FramingRoundTrip(sent[i].out, []);
    assert offer.wire + [] == offer.wire;
  }

  /** Where a chaining value recurs, some unforged run accepts something other than a prefix. */
  lemma RepeatedChainAdmitsReplay(
    p: Suite, keys: BspSessionKeys, chain: bytes, commands: seq<Command>, sent: seq<Step<ProtectedTlv>>,
    i: nat, k: nat) returns (offers: seq<Offer>)
    requires p.AesIsPermutation()
    requires IsSession(p, keys, chain, commands, sent) && TagsAreWellFormed(commands)
    requires i < k <= |sent| && ChainAt(chain, sent, i) == ChainAt(chain, sent, k)
    ensures Unforged(p, keys, chain, sent, offers)
    ensures !(DeliveredTlvs(Run(p, keys, chain, offers)) <= Tlvs(sent))
    decreases |sent| - k
  {
    if k < |sent| && sent[i].out == sent[k].out {
      SentBlock(p, keys, chain, commands, sent, i);
      SentBlock(p, keys, chain, commands, sent, k);
      offers := RepeatedChainAdmitsReplay(p, keys, chain, commands, sent, i + 1, k + 1);
    } else {
      offers := Faithful(commands, sent, k) + [Offer(Encode(sent[i].out), commands[i].protection)];
      forall j | 0 <= j <= k
        ensures IsGenuine(p, keys, chain, sent, Run(p, keys, chain, offers[..j]).chain, offers[j])
      {
        ReplayIsGenuine(p, keys, chain, commands, sent, i, k, offers, j);
      }
      ReplayIsAccepted(p, keys, chain, commands, sent, i, k, offers);
      NotAPrefix(Tlvs(sent), k, sent[i].out);
    }
  }

  lemma NotAPrefix<T>(s: seq<T>, k: nat, x: T)
    requires k <= |s| && (k < |s| ==> s[k] != x)
    ensures !(s[..k] + [x] <= s)
  {
    assert (s[..k] + [x])[k] == x;
  }

  lemma ReplayIsAccepted(
    p: Suite, keys: BspSessionKeys, chain: bytes, commands: seq<Command>, sent: seq<Step<ProtectedTlv>>,
    i: nat, k: nat, offers: seq<Offer>)
    requires p.AesIsPermutation()
    requires IsSession(p, keys, chain, commands, sent) && TagsAreWellFormed(commands)
    requires i < k <= |sent| && ChainAt(chain, sent, i) == ChainAt(chain, sent, k)
    requires offers == Faithful(commands, sent, k) + [Offer(Encode(sent[i].out), commands[i].protection)]
    ensures DeliveredTlvs(Run(p, keys, chain, offers)) == Tlvs(sent)[..k] + [sent[i].out]
  {
    var front := Faithful(commands, sent, k);
    FaithfulRun(p, keys, chain, commands, sent, k, k);
    assert offers[..k] == front == front[..k];
    var s := Run(p, keys, chain, front);
    NextBlockIsAccepted(p, keys, chain, commands, sent, i, s, offers[k]);
    DeliveredGrows(s, sent[i].chain, Delivery(sent[i].out, commands[i].protection, commands[i].plaintext));
  }

  lemma DeliveredGrows(s: Receiver, chain: bytes, d: Delivery)
    ensures DeliveredTlvs(Receiver(chain, s.delivered + [d])) == DeliveredTlvs(s) + [d.tlv]
  {
  }

  lemma ReplayIsGenuine(
    p: Suite, keys: BspSessionKeys, chain: bytes, commands: seq<Command>, sent: seq<Step<ProtectedTlv>>,
    i: nat, k: nat, offers: seq<Offer>, j: nat)
    requires p.AesIsPermutation()
    requires IsSession(p, keys, chain, commands, sent) && TagsAreWellFormed(commands)
    requires i < k <= |sent| && ChainAt(chain, sent, i) == ChainAt(chain, sent, k)
    requires offers == Faithful(commands, sent, k) + [Offer(Encode(sent[i].out), commands[i].protection)]
    requires j <= k
    ensures IsGenuine(p, keys, chain, sent, Run(p, keys, chain, offers[..j]).chain, offers[j])
  {
    FaithfulRun(p, keys, chain, commands, sent, k, j);
    assert offers[..j] == Faithful(commands, sent, k)[..j];
    OwnBlockIsGenuine(p, keys, chain, commands, sent, if j == k then i else j, ChainAt(chain, sent, j), offers[j]);
  }

  /**
    A session is indivisible, in the sense that no unforged run accepts anything but a prefix of
    it, exactly when its chaining values never repeat.
   */
  lemma IndivisibleExactlyWhenChainsDistinct(
    p: Suite, keys: BspSessionKeys, chain: bytes, commands: seq<Command>, sent: seq<Step<ProtectedTlv>>)
    requires p.AesIsPermutation()
    requires IsSession(p, keys, chain, commands, sent) && TagsAreWellFormed(commands)
    ensures ChainsAreDistinct(chain, sent) <==>
            forall offers :: Unforged(p, keys, chain, sent, offers) ==>
              DeliveredTlvs(Run(p, keys, chain, offers)) <= Tlvs(sent)
  {
    if ChainsAreDistinct(chain, sent) {
      forall offers | Unforged(p, keys, chain, sent, offers)
        ensures DeliveredTlvs(Run(p, keys, chain, offers)) <= Tlvs(sent)
      {
        AcceptedBlocksArePrefix(p, keys, chain, commands, sent, offers);
      }
    } else {
      var i, k :| 0 <= i < k <= |sent| && ChainAt(chain, sent, i) == ChainAt(chain, sent, k);
      var offers := RepeatedChainAdmitsReplay(p, keys, chain, commands, sent, i, k);
    }
  }
}
