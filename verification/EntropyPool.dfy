/**
 The pool of random bytes behind fact identifiers (crates/core/src/fact_id.rs:265-301): a fixed
 buffer read from a device when it runs out, and a cursor over it.  `device(n, i)` is byte `i` of
 the n-th read; a read never fails here.

 Callers get the bytes of the device in order, none skipped and none handed out twice.
 */
module EntropyPool {

  const POOL_SIZE := 256

  /** Byte `k` of everything the device gives. */
  function StreamByte(device: (nat, nat) -> char, k: nat): char
  {
    device(k / POOL_SIZE, k % POOL_SIZE)
  }

  lemma BlockByte(device: (nat, nat) -> char, block: nat, i: nat)
    requires i < POOL_SIZE
    ensures StreamByte(device, block * POOL_SIZE + i) == device(block, i)
  {
    assert (block * POOL_SIZE + i) / POOL_SIZE == block;
    assert (block * POOL_SIZE + i) % POOL_SIZE == i;
  }

  class Pool {
    const device: (nat, nat) -> char
    const buf: array<char>
    var cursor: nat
    /** How many reads were made. */
    var refills: nat

    ghost predicate Valid()
      reads this, buf
    {
      buf.Length == POOL_SIZE && cursor <= POOL_SIZE && (refills == 0 ==> cursor == POOL_SIZE)
      && (refills > 0 ==> forall i :: 0 <= i < POOL_SIZE ==> buf[i] == device(refills - 1, i))
    }

    /** How many bytes were handed out. */
    ghost function Given(): nat
      requires Valid()
      reads this, buf
    {
      refills * POOL_SIZE - POOL_SIZE + cursor
    }

    constructor (source: (nat, nat) -> char)
      ensures Valid() && fresh(buf) && device == source && Given() == 0
    {
      device := source;
      buf := new char[POOL_SIZE](_ => 0 as char);
      cursor, refills := POOL_SIZE, 0;
    }

    method Refill()
      requires Valid() && cursor == POOL_SIZE
      modifies this, buf
      ensures Valid() && cursor == 0 && refills == old(refills) + 1 && Given() == old(Given())
    {
      for i := 0 to POOL_SIZE
        modifies buf
        invariant forall j :: 0 <= j < i ==> buf[j] == device(refills, j)
      {
        buf[i] := device(refills, i);
      }
      refills := refills + 1;
      cursor := 0;
    }

    /** Copy the next bytes of the buffer into a slice. */
    method CopyChunk(out: array<char>, at: nat, chunk: nat)
      requires Valid() && out != buf && refills > 0 && cursor + chunk <= POOL_SIZE && at + chunk <= out.Length
      modifies `cursor, out
      ensures Valid() && Given() == old(Given()) + chunk && refills == old(refills)
      ensures forall i :: 0 <= i < at ==> out[i] == old(out[i])
      ensures forall i :: at <= i < at + chunk ==> out[i] == StreamByte(device, old(Given()) + i - at)
    {
      hide StreamByte;
      forall i | at <= i < at + chunk {
        out[i] := buf[cursor + i - at];
      }
      forall i | at <= i < at + chunk ensures out[i] == StreamByte(device, Given() + i - at) {
        BlockByte(device, refills - 1, cursor + i - at);
      }
      cursor := cursor + chunk;
    }

    method Fill(out: array<char>)
      requires Valid() && out != buf
      modifies this, buf, out
      ensures Valid() && Given() == old(Given()) + out.Length
      ensures forall i :: 0 <= i < out.Length ==> out[i] == StreamByte(device, old(Given()) + i)
    {
      hide StreamByte;
      var written := 0;
      while written < out.Length
        invariant Valid() && written <= out.Length && Given() == old(Given()) + written
        invariant forall i :: 0 <= i < written ==> out[i] == StreamByte(device, old(Given()) + i)
      {
        if cursor == POOL_SIZE {
          Refill();
        }
        var available, needed := POOL_SIZE - cursor, out.Length - written;
        var chunk := if available < needed then available else needed;
        CopyChunk(out, written, chunk);
        written := written + chunk;
      }
    }
  }
}
