/** `__handleMountError`: the messages for the bits set in a `mount` exit
    status. Bits are read with floor division, which is what Python's `&`
    computes on a two's-complement integer of any sign. */
module MountManager {
  import Strings

  /** The messages of bits 1, 2, 4, …, 64, in the order the table lists them. */
  const MountMessages: seq<string> := [
    "incorrect invocation or permissions",
    "system error (out of memory, cannot fork, no more loop devices)",
    "internal mount bug or missing nfs support in mount",
    "user interrupt",
    "problems writing or locking /etc/mtab",
    "generic mount failure",
    "some mount succeeded"
  ]

  /** `rv & key != 0` for a power of two `key`. */
  predicate Bit(rv: int, key: nat)
    requires key >= 1
  {
    (rv / key) % 2 == 1
  }

  /** Bit `k` of `rv` is set. */
  predicate BitSet(rv: int, k: nat)
  {
    Bit(rv, Strings.Pow2(k))
  }

  /** The seven messages are different texts. */
  lemma MessagesDistinct()
    ensures forall i, j :: 0 <= i < j < 7 ==> MountMessages[i] != MountMessages[j]
  {
    assert |MountMessages[0]| == 35;
    assert |MountMessages[1]| == 63;
    assert |MountMessages[2]| == 50;
    assert |MountMessages[3]| == 14;
    assert |MountMessages[4]| == 37;
    assert |MountMessages[5]| == 21;
    assert |MountMessages[6]| == 20;
  }

  /** The messages for the set bits among bits `k` to 6, in order. */
  function MessagesFrom(rv: int, k: nat): seq<string>
    requires k <= 7
    decreases 7 - k
  {
    if k == 7 then []
    else (if BitSet(rv, k) then [MountMessages[k]] else []) + MessagesFrom(rv, k + 1)
  }

  /** The number of set bits among bits `k` to 6. */
  function SetBits(rv: int, k: nat): nat
    requires k <= 7
    decreases 7 - k
  {
    if k == 7 then 0 else (if BitSet(rv, k) then 1 else 0) + SetBits(rv, k + 1)
  }

  /** Every message the status reports, in table order. */
  function MountErrors(rv: int): seq<string>
  {
    MessagesFrom(rv, 0)
  }

  method HandleMountError(rv: int) returns (errors: seq<string>)
    ensures errors == MountErrors(rv)
  {
    errors := [];
    var k := 0;
    var key := 1;
    while k < 7
      invariant 0 <= k <= 7 && key == Strings.Pow2(k)
      invariant errors + MessagesFrom(rv, k) == MountErrors(rv)
    {
      MessagesStep(rv, k, errors);
      if Bit(rv, key) {
        errors := errors + [MountMessages[k]];
      }
      k := k + 1;
      key := 2 * key;
    }
  }

  /** One step of the loop: bit `k` contributes its message, if set, ahead of the later bits' messages. */
  lemma MessagesStep(rv: int, k: nat, errors: seq<string>)
    requires k < 7
    ensures BitSet(rv, k) ==> errors + MessagesFrom(rv, k) == (errors + [MountMessages[k]]) + MessagesFrom(rv, k + 1)
    ensures !BitSet(rv, k) ==> errors + MessagesFrom(rv, k) == errors + MessagesFrom(rv, k + 1)
  {
  }

  /** One message per set bit. */
  lemma {:induction false} MessageCount(rv: int, k: nat)
    requires k <= 7
    ensures |MessagesFrom(rv, k)| == SetBits(rv, k)
    decreases 7 - k
  {
    if k < 7 {
      MessageCount(rv, k + 1);
    }
  }

  /** The message of a bit is reported exactly when that bit is set. */
  lemma MessageForBit(rv: int, k: nat, b: nat)
    requires k <= 7 && b < 7
    ensures MountMessages[b] in MessagesFrom(rv, k) <==> k <= b && BitSet(rv, b)
  {
    if k <= b && BitSet(rv, b) {
      SetBitReported(rv, k, b);
    }
    ReportedBitSet(rv, k, b);
  }

  /** A set bit from `k` on has its message reported. */
  lemma {:induction false} SetBitReported(rv: int, k: nat, b: nat)
    requires k <= b < 7 && BitSet(rv, b)
    ensures MountMessages[b] in MessagesFrom(rv, k)
    decreases 7 - k
  {
    if k < b {
      SetBitReported(rv, k + 1, b);
    }
    InConcat(MountMessages[b], if BitSet(rv, k) then [MountMessages[k]] else [], MessagesFrom(rv, k + 1));
  }

  /** A reported message belongs to a set bit from `k` on. */
  lemma {:induction false} ReportedBitSet(rv: int, k: nat, b: nat)
    requires k <= 7 && b < 7
    ensures MountMessages[b] in MessagesFrom(rv, k) ==> k <= b && BitSet(rv, b)
    decreases 7 - k
  {
    if k < 7 {
      ReportedBitSet(rv, k + 1, b);
      SameMessage(k, b);
      InConcat(MountMessages[b], if BitSet(rv, k) then [MountMessages[k]] else [], MessagesFrom(rv, k + 1));
    }
  }

  lemma InConcat<T>(x: T, a: seq<T>, b: seq<T>)
    ensures x in a + b <==> x in a || x in b
  {
  }

  /** Two bits share a message only when they are the same bit. */
  lemma SameMessage(k: nat, b: nat)
    requires k < 7 && b < 7
    ensures MountMessages[k] == MountMessages[b] <==> k == b
  {
    MessagesDistinct();
    if k < b {
      assert MountMessages[k] != MountMessages[b];
    } else if b < k {
      assert MountMessages[b] != MountMessages[k];
    }
  }

  /** Nothing is reported exactly when none of the seven bits is set. */
  lemma NoKnownBit(rv: int)
    ensures MessagesFrom(rv, 0) == [] <==> forall b :: 0 <= b < 7 ==> !BitSet(rv, b)
  {
    forall b | 0 <= b < 7 ensures MountMessages[b] in MessagesFrom(rv, 0) <==> BitSet(rv, b) {
      MessageForBit(rv, 0, b);
    }
    if MessagesFrom(rv, 0) != [] {
      MessagesAreKnown(rv, 0);
      assert MessagesFrom(rv, 0)[0] in MountMessages;
      var b :| 0 <= b < 7 && MountMessages[b] == MessagesFrom(rv, 0)[0];
      assert BitSet(rv, b);
    }
  }

  /** A status of 0 reports nothing. */
  lemma ZeroStatus()
    ensures MessagesFrom(0, 0) == []
  {
    forall b | 0 <= b < 7 ensures !BitSet(0, b) {
      assert 0 / Strings.Pow2(b) == 0;
    }
    NoKnownBit(0);
  }

  /** Every message reported comes from the table. */
  lemma {:induction false} MessagesAreKnown(rv: int, k: nat)
    requires k <= 7
    ensures forall m :: m in MessagesFrom(rv, k) ==> m in MountMessages
    decreases 7 - k
  {
    if k < 7 {
      MessagesAreKnown(rv, k + 1);
    }
  }
}
