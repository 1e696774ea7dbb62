/** Compressor and decompressor together: whatever goes in, in however many calls, comes out again. */
module RoundTrip {
  import opened Wrappers
  import opened Lz77
  import opened Parser
  import opened BitOutput
  import opened Inflate
  import opened Deflate
  import opened Outcomes
  import opened Inflater

  // The bytes of all calls.
  function Joined(calls: seq<(seq<byte>, Flush)>): seq<byte> {
    if calls == [] then [] else Joined(calls[..|calls| - 1]) + calls[|calls| - 1].0
  }

  lemma FinishedMeans(sent: seq<byte>, data: seq<byte>)
    requires Finished(BytesBits(sent), data)
    ensures Inflated(BytesBits(sent), 0, []) == Some(data)
  {
    assert BytesBits(sent) + [] == BytesBits(sent);
  }

  // Compresses the calls and ends the stream.
  method CompressAll(calls: seq<(seq<byte>, Flush)>, flags: Flags, probes: (nat, nat), forceStatic: bool)
    returns (sent: seq<byte>)
    requires probes.0 >= 1 && probes.1 >= 1
    requires forall i :: 0 <= i < |calls| ==> calls[i].1 != Finish
    ensures Inflated(BytesBits(sent), 0, []) == Some(Joined(calls))
  {
    hide Inflated, Finished, BytesBits, Compressor.Valid;
    var c := new Compressor(flags, probes, forceStatic);
    for i := 0 to |calls|
      invariant c.Valid() && fresh(c.Frame()) && !c.finished
      invariant c.parser.window.data == Joined(calls[..i])
    {
      assert calls[..i + 1][..i] == calls[..i];
      c.Compress(calls[i].0, calls[i].1);
    }
    assert calls[..|calls|] == calls;
    c.Compress([], Finish);
    sent := c.sent;
    assert Joined(calls) + [] == Joined(calls);
    FinishedMeans(sent, Joined(calls));
  }

  // And decompresses what was sent into a buffer.
  method CompressDecompress(calls: seq<(seq<byte>, Flush)>, flags: Flags, probes: (nat, nat), forceStatic: bool, out: array<byte>)
    returns (status: Status, n: nat)
    requires probes.0 >= 1 && probes.1 >= 1
    requires forall i :: 0 <= i < |calls| ==> calls[i].1 != Finish
    modifies out
    ensures n <= out.Length && (status == Done <==> |Joined(calls)| <= out.Length)
    ensures out[..n] == if status == Done then Joined(calls) else Joined(calls)[..out.Length]
  {
    hide Inflated, BytesBits;
    var sent := CompressAll(calls, flags, probes, forceStatic);
    status, n := Decompress(sent, out);
  }

  // Or hands what comes out to a callback that accepts so many buffers.
  method CompressToCallback(calls: seq<(seq<byte>, Flush)>, flags: Flags, probes: (nat, nat), forceStatic: bool, accepted: nat)
    returns (ok: bool, given: seq<byte>)
    requires probes.0 >= 1 && probes.1 >= 1
    requires forall i :: 0 <= i < |calls| ==> calls[i].1 != Finish
    ensures ok <==> |Joined(calls)| <= LZ_DICT_SIZE * accepted
    ensures given == if ok then Joined(calls) else Joined(calls)[..LZ_DICT_SIZE * accepted]
  {
    hide Inflated, BytesBits;
    var sent := CompressAll(calls, flags, probes, forceStatic);
    ok, given := DecompressToCallback(sent, accepted);
  }
}
