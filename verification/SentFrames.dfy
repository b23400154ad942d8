/**
 From the filtered samples of the receivers to the bytes of the frames that are sent: the
 packets that the sending threads deal out, handed over at the barrier, stored in the frame
 by `load_packet`. The conversion of a float sample to 16 bits is a parameter.
 */
module SentFrames {
  import opened Collections
  import opened Pow2s
  import FrameBarrier
  import HpsdrFrame
  import Downsample

  type Int16 = x: int | -0x8000 <= x < 0x8000

  /** The filtered blocks of each active receiver in order, and the conversion. */
  datatype Streams = Streams(blocks: seq<seq<seq<real>>>, convert: real -> Int16)

  predicate Valid(sl: HpsdrFrame.Slots, st: Streams) {
    sl.Valid() && |st.blocks| == sl.active
  }

  function PacketSamples(sl: HpsdrFrame.Slots): (samps: nat)
    requires sl.Valid()
    ensures samps > 0
  {
    HpsdrFrame.NSAMPS_PACKET[sl.Total() - 1]
  }

  /** The packets of receiver r. */
  function PacketsOf(sl: HpsdrFrame.Slots, st: Streams, r: nat): seq<seq<real>>
    requires sl.Valid() && r < |st.blocks|
  {
    Downsample.RunPackets(st.blocks[r], PacketSamples(sl))
  }

  /** Value j of packet k of receiver r, or 0 when there is no such packet. */
  function Stored(sl: HpsdrFrame.Slots, st: Streams, r: nat, k: nat, j: nat): Int16
    requires sl.Valid()
  {
    if r < |st.blocks| && k < |PacketsOf(sl, st, r)| && j < |PacketsOf(sl, st, r)[k]|
    then st.convert(PacketsOf(sl, st, r)[k][j])
    else 0
  }

  /** The barrier at which the packets of these streams are handed over. */
  function Barrier(sl: HpsdrFrame.Slots, st: Streams): FrameBarrier.Config
    requires sl.Valid()
  {
    FrameBarrier.Config(sl.active, 2 * PacketSamples(sl), (r: nat, k: nat, j: nat) => Stored(sl, st, r, k, j))
  }

  /** The receivers' packets, as load_packet finds them. */
  function Sources(data: seq<seq<int>>): seq<HpsdrFrame.Source> {
    seq(|data|, r requires 0 <= r < |data| => HpsdrFrame.Source(data[r], 0))
  }

  // ---- packets are stretches of the stream

  lemma {:induction false} PacketLengths(blocks: seq<seq<real>>, samps: nat)
    requires samps > 0
    ensures forall k :: 0 <= k < |Downsample.RunPackets(blocks, samps)| ==>
            |Downsample.RunPackets(blocks, samps)[k]| == 2 * samps
  {
    if blocks != [] { PacketLengths(blocks[..|blocks| - 1], samps); }
  }

  lemma {:induction false} ConcatAt<T>(parts: seq<seq<T>>, len: nat, k: nat, j: nat)
    requires forall i :: 0 <= i < |parts| ==> |parts[i]| == len
    requires k < |parts| && j < len
    ensures 0 <= k * len + j < |Concat(parts)| && Concat(parts)[k * len + j] == parts[k][j]
  {
    var rest := Concat(parts[1..]);
    assert Concat(parts) == parts[0] + rest;
    hide Concat;
    if k > 0 {
      ConcatAt(parts[1..], len, k - 1, j);
      MulSub(len, k, 1);
      assert (parts[0] + rest)[len + ((k - 1) * len + j)] == rest[(k - 1) * len + j];
    }
  }

  /** Value j of packet k is value 2 * samps * k + j of the stream. */
  lemma PacketAt(blocks: seq<seq<real>>, samps: nat, k: nat, j: nat)
    requires samps > 0 && k < |Downsample.RunPackets(blocks, samps)| && j < 2 * samps
    ensures |Downsample.RunPackets(blocks, samps)[k]| == 2 * samps
    ensures 0 <= k * (2 * samps) + j < |Concat(blocks)|
    ensures Downsample.RunPackets(blocks, samps)[k][j] == Concat(blocks)[k * (2 * samps) + j]
  {
    PacketLengths(blocks, samps);
    Downsample.RunConserves(blocks, samps);
    ConcatAt(Downsample.RunPackets(blocks, samps), 2 * samps, k, j);
  }

  // ---- from the stream to the frame

  /** The packets of a frame are what load_packet needs. */
  lemma FrameIsReady(sl: HpsdrFrame.Slots, st: Streams, k: nat, order: seq<nat>)
    requires Valid(sl, st) && forall i :: 0 <= i < |order| ==> order[i] < sl.active
    ensures HpsdrFrame.Ready(sl, Sources(FrameBarrier.Packets(Barrier(sl, st), k)), order)
  {
    var sources := Sources(FrameBarrier.Packets(Barrier(sl, st), k));
    forall r | 0 <= r < sl.active
      ensures HpsdrFrame.HasPacket(sl, sources[r])
    {
      assert sources[r] == HpsdrFrame.Source(FrameBarrier.Packet(Barrier(sl, st), r, k), 0);
      forall i | 0 <= i < |sources[r].iqSamples|
        ensures -0x8000 <= sources[r].iqSamples[i] < 0x8000
      {
        assert sources[r].iqSamples[i] == Stored(sl, st, r, k, i);
      }
    }
  }

  /** Value j of packet k of receiver r, in its sources and in its stream. */
  lemma SourceAt(sl: HpsdrFrame.Slots, st: Streams, r: nat, k: nat, j: nat)
    requires Valid(sl, st) && r < sl.active && k < |PacketsOf(sl, st, r)| && j < 2 * PacketSamples(sl)
    ensures var sources := Sources(FrameBarrier.Packets(Barrier(sl, st), k));
            var stream := Concat(st.blocks[r]);
            && |sources| == sl.active && sources[r].iqSampleOffset == 0 && j < |sources[r].iqSamples|
            && 0 <= k * (2 * PacketSamples(sl)) + j < |stream|
            && sources[r].iqSamples[j] == st.convert(stream[k * (2 * PacketSamples(sl)) + j])
  {
    PacketAt(st.blocks[r], PacketSamples(sl), k, j);
    hide Concat, Downsample.RunPackets;
    var sources := Sources(FrameBarrier.Packets(Barrier(sl, st), k));
    assert sources[r] == HpsdrFrame.Source(FrameBarrier.Packet(Barrier(sl, st), r, k), 0);
    assert sources[r].iqSamples[j] == Stored(sl, st, r, k, j);
  }

  /** Once its packets `data` are stored in this order, sample t of a slot decodes to that of packet k of its stream. */
  ghost predicate ShowsStream(sl: HpsdrFrame.Slots, st: Streams, data: seq<seq<int>>, k: nat, order: seq<nat>,
                              before: seq<HpsdrFrame.Byte>, slot: nat, t: nat, component: nat)
    requires Valid(sl, st) && |before| == HpsdrFrame.FRAME_LEN
    requires slot < sl.Total() && t < PacketSamples(sl) && component < 2
  {
    var stream := Concat(st.blocks[if slot < sl.active then slot else sl.active - 1]);
    var at := k * (2 * PacketSamples(sl)) + (2 * t + component);
    && HpsdrFrame.Ready(sl, Sources(data), order)
    && 0 <= at < |stream|
    && HpsdrFrame.Decoded(sl, HpsdrFrame.LoadAll(sl, Sources(data), order, before), slot, t, component) ==
       st.convert(stream[at])
  }

  lemma PacketsShowStream(sl: HpsdrFrame.Slots, st: Streams, k: nat, order: seq<nat>,
                          before: seq<HpsdrFrame.Byte>, slot: nat, t: nat, component: nat)
    requires Valid(sl, st) && |before| == HpsdrFrame.FRAME_LEN
    requires forall i :: 0 <= i < |order| ==> order[i] < sl.active
    requires forall r: nat :: r < sl.active ==> r in order
    requires slot < sl.Total() && t < PacketSamples(sl) && component < 2
    requires k < |PacketsOf(sl, st, HpsdrFrame.Shown(sl, slot))|
    ensures ShowsStream(sl, st, FrameBarrier.Packets(Barrier(sl, st), k), k, order, before, slot, t, component)
  {
    assert sl.Valid() && PacketSamples(sl) == HpsdrFrame.NSAMPS_PACKET[sl.Total() - 1];
    hide Barrier, Sources, Concat, PacketsOf, PacketSamples, HpsdrFrame.Ready, HpsdrFrame.Decoded, HpsdrFrame.LoadAll,
         HpsdrFrame.Shown;
    FrameIsReady(sl, st, k, order);
    SourceAt(sl, st, HpsdrFrame.Shown(sl, slot), k, 2 * t + component);
    HpsdrFrame.SlotsShow(sl, Sources(FrameBarrier.Packets(Barrier(sl, st), k)), order, before, slot, t, component);
  }

  /**
   In every interleaving of the threads, when the receivers store the packets of frame k in any
   order, sample t of a slot decodes to sample k * samps + t of the filtered stream of the
   receiver that the slot shows.
   */
  lemma SentSamples(sl: HpsdrFrame.Slots, st: Streams, init: FrameBarrier.State, choices: seq<FrameBarrier.Choice>,
                    k: nat, order: seq<nat>, before: seq<HpsdrFrame.Byte>, slot: nat, t: nat, component: nat)
    requires Valid(sl, st) && FrameBarrier.Init(Barrier(sl, st), init)
    requires k < |FrameBarrier.Execution(Barrier(sl, st), init, choices).frames|
    requires forall i :: 0 <= i < |order| ==> order[i] < sl.active
    requires forall r: nat :: r < sl.active ==> r in order
    requires |before| == HpsdrFrame.FRAME_LEN && slot < sl.Total() && t < PacketSamples(sl) && component < 2
    requires k < |PacketsOf(sl, st, HpsdrFrame.Shown(sl, slot))|
    ensures ShowsStream(sl, st, FrameBarrier.Execution(Barrier(sl, st), init, choices).frames[k].data, k, order, before,
                        slot, t, component)
  {
    assert sl.Valid();
    hide *;
    FrameBarrier.FramesAreRounds(Barrier(sl, st), init, choices, k);
    PacketsShowStream(sl, st, k, order, before, slot, t, component);
  }
}
