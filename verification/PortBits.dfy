/** Ports as bits: unpacking most significant bit first, packing sixteen at a time, and the port predictor. */
module PortBits {
  import opened Binary
  import opened Common
  import opened Lfsr
  import opened Predictor

  function Unpack(ports: seq<Port>): (bits: seq<bool>)
    ensures |bits| == 16 * |ports|
  {
    if ports == [] then [] else BitsOf(ports[0], 16) + Unpack(ports[1..])
  }

  // --- Packing is the inverse of unpacking ---------------------------------------------------------

  /** Whole groups of sixteen bits as ports; a shorter tail is dropped. */
  function Pack(bits: seq<bool>): (ports: seq<Port>)
    ensures |ports| == |bits| / 16
  {
    if |bits| < 16 then []
    else
      Pow2Values();
      ValueBound(bits[..16]);
      [Value(bits[..16])] + Pack(bits[16..])
  }

  lemma {:induction false} PackUnpack(ports: seq<Port>)
    ensures Pack(Unpack(ports)) == ports
  {
    if ports != [] {
      var first := BitsOf(ports[0], 16);
      assert Unpack(ports)[..16] == first && Unpack(ports)[16..] == Unpack(ports[1..]);
      Pow2Values();
      ValueOfBits(ports[0], 16);
      PackUnpack(ports[1..]);
    }
  }

  lemma {:induction false} UnpackPack(bits: seq<bool>)
    ensures Unpack(Pack(bits)) == bits[..|bits| / 16 * 16]
  {
    if |bits| >= 16 {
      BitsOfValue(bits[..16]);
      UnpackPack(bits[16..]);
      assert bits[16..][..|bits[16..]| / 16 * 16] == bits[16..|bits| / 16 * 16];
    }
  }

  lemma {:induction false} UnpackConcat(a: seq<Port>, b: seq<Port>)
    ensures Unpack(a + b) == Unpack(a) + Unpack(b)
  {
    if a == [] {
      assert a + b == b;
    } else {
      assert (a + b)[1..] == a[1..] + b;
      UnpackConcat(a[1..], b);
    }
  }

  lemma {:induction false} UnpackAllZero(ports: seq<Port>)
    ensures true in Unpack(ports) <==> exists p :: p in ports && p != 0
  {
    if ports != [] {
      Pow2Values();
      ValueOfBits(ports[0], 16);
      ValueZero(BitsOf(ports[0], 16));
      UnpackAllZero(ports[1..]);
      assert forall p :: p in ports <==> p == ports[0] || p in ports[1..];
      assert true in Unpack(ports) <==> ports[0] != 0 || true in Unpack(ports[1..]);
      if ports[0] != 0 {
        assert ports[0] in ports;
      }
    }
  }

  // --- The loops ------------------------------------------------------------------------------------

  method UnpackPorts(ports: seq<Port>) returns (bits: seq<bool>)
    ensures bits == Unpack(ports)
  {
    bits := [];
    for k := 0 to |ports|
      invariant bits == Unpack(ports[..k])
    {
      ghost var before := bits;
      var p := ports[k];
      for i := 16 downto 0
        invariant bits == before + BitsOf(p, 16)[..16 - i]
      {
        BitsOfAt(p, 16, 15 - i);
        bits := bits + [Shr(p, i) % 2 == 1];
      }
      assert ports[..k + 1] == ports[..k] + [p];
      UnpackConcat(ports[..k], [p]);
      assert Unpack([p]) == BitsOf(p, 16);
    }
    assert ports[..|ports|] == ports;
  }

  /** One more digit, still within sixteen. */
  lemma ValueStep(group: seq<bool>, j: nat)
    requires j < |group| == 16
    ensures Value(group[..j + 1]) == 2 * Value(group[..j]) + BitValue(group[j]) < 65536
  {
    assert group[..j + 1][..j] == group[..j];
    ValueBound(group[..j + 1]);
    PowMonotone(j + 1, 16);
    Pow2Values();
  }

  /** One port from the sixteen bits at `i`, in 16-bit arithmetic. */
  method PackPort(bits: seq<bool>, i: nat) returns (port: Port)
    requires i + 16 <= |bits|
    ensures port == Value(bits[i..i + 16])
  {
    ghost var group := bits[i..i + 16];
    port := 0;
    for j := 0 to 16
      invariant port == Value(group[..j])
    {
      ValueStep(group, j);
      port := port * 2 % 65536 + BitValue(bits[i + j]);
    }
    assert group[..16] == group;
  }

  method PackBits(bits: seq<bool>) returns (ports: seq<Port>)
    ensures ports == Pack(bits)
  {
    ports := [];
    var i := 0;
    assert bits[0..] == bits;
    while i + 15 < |bits|
      invariant 0 <= i <= |bits|
      invariant ports + Pack(bits[i..]) == Pack(bits)
    {
      var port := PackPort(bits, i);
      assert bits[i..][..16] == bits[i..i + 16] && bits[i..][16..] == bits[i + 16..];
      ports := ports + [port];
      i := i + 16;
    }
  }

  /**
   From observed ports to predicted ports. When a register of length at most half the observed
   bits drives the allocator, the predicted ports are its next ports.
   */
  method PredictPorts(ports: seq<Port>, count: nat) returns (predicted: seq<Port>)
    requires exists p :: p in ports && p != 0
    ensures |predicted| == count / 16
    ensures forall e: seq<bool>, k: nat, future: seq<Port> ::
              |future| == count / 16 && k <= 8 * |ports| && Generates(e, k, Unpack(ports + future)) ==>
                predicted == future
  {
    var bits := UnpackPorts(ports);
    UnpackAllZero(ports);
    var next := PredictBits(bits, count);
    predicted := PackBits(next);
    forall e: seq<bool>, k: nat, future: seq<Port> |
      |future| == count / 16 && k <= 8 * |ports| && Generates(e, k, Unpack(ports + future))
      ensures predicted == future
    {
      UnpackConcat(ports, future);
      assert next[..|Unpack(future)|] == Unpack(future);
      PackPrefix(next);
      PackUnpack(future);
    }
  }

  /** The dropped tail does not matter. */
  lemma {:induction false} PackPrefix(bits: seq<bool>)
    ensures Pack(bits[..|bits| / 16 * 16]) == Pack(bits)
  {
    if |bits| >= 16 {
      var n := |bits| / 16 * 16;
      assert bits[..n][..16] == bits[..16] && bits[..n][16..] == bits[16..][..|bits[16..]| / 16 * 16];
      PackPrefix(bits[16..]);
    }
  }
}
