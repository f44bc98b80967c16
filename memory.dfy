/** The traced process's address space as the patcher sees it through the
    architecture callbacks `process_read_data` and `process_write_data`: a
    partial map from 64-bit addresses to bytes. A transfer of n bytes at `addr`
    touches the addresses addr, addr + 1, ... modulo 2^64; it succeeds only
    when every one of them is mapped, and otherwise fails with -EFAULT and
    leaves memory as it was. */
module Memory {
  import opened Bits

  const EFAULT: int := 14

  type Bytes = map<u64, byte>

  /** The i-th address of a transfer that starts at `addr`. */
  function At(addr: u64, i: nat): u64
  {
    Wrap64(addr + i)
  }

  /** How far `a` lies past `addr`, counting modulo 2^64. */
  function Distance(addr: u64, a: u64): nat
  {
    Wrap64(a - addr)
  }

  lemma DistanceAt(addr: u64, i: nat)
    requires i < U64_LIMIT
    ensures Distance(addr, At(addr, i)) == i
  {
    var s := addr + i;
    if s >= U64_LIMIT {
      DivUnique(s, U64_LIMIT, 1, s - U64_LIMIT);
      DivUnique(s - U64_LIMIT - addr, U64_LIMIT, -1, i);
    } else {
      DivUnique(s, U64_LIMIT, 0, s);
      DivUnique(i, U64_LIMIT, 0, i);
    }
  }

  predicate Mapped(m: Bytes, addr: u64, n: nat)
  {
    forall i :: 0 <= i < n ==> At(addr, i) in m
  }

  /** The n bytes at `addr`. */
  function Load(m: Bytes, addr: u64, n: nat): (r: seq<byte>)
    requires Mapped(m, addr, n)
    ensures |r| == n
    ensures forall i :: 0 <= i < n ==> r[i] == m[At(addr, i)]
  {
    seq(n, i requires 0 <= i < n => m[At(addr, i)])
  }

  /** `m` with `data` written at `addr`; only mapped addresses exist. */
  function Store(m: Bytes, addr: u64, data: seq<byte>): (r: Bytes)
    ensures r.Keys == m.Keys
  {
    map a | a in m :: if Distance(addr, a) < |data| then data[Distance(addr, a)] else m[a]
  }

  /** Reading back what was just written gives the written bytes. */
  lemma LoadStore(m: Bytes, addr: u64, data: seq<byte>)
    requires Mapped(m, addr, |data|) && |data| <= U64_LIMIT
    ensures Mapped(Store(m, addr, data), addr, |data|)
    ensures Load(Store(m, addr, data), addr, |data|) == data
  {
    forall i | 0 <= i < |data|
      ensures Store(m, addr, data)[At(addr, i)] == data[i]
    {
      DistanceAt(addr, i);
    }
  }

  /** A write leaves every byte outside its window untouched. */
  lemma StoreOutside(m: Bytes, addr: u64, data: seq<byte>, a: u64)
    requires a in m && Distance(addr, a) >= |data|
    ensures Store(m, addr, data)[a] == m[a]
  {
  }

  /** The outcome of `process_read_data`: 0 and the bytes, or -EFAULT. */
  datatype ReadResult = ReadResult(err: int, data: seq<byte>)

  function ReadSpec(m: Bytes, addr: u64, n: nat): (r: ReadResult)
    ensures r.err == 0 <==> Mapped(m, addr, n)
    ensures r.err != 0 ==> r.err == -EFAULT
    ensures r.err == 0 ==> r.data == Load(m, addr, n)
  {
    if Mapped(m, addr, n) then ReadResult(0, Load(m, addr, n)) else ReadResult(-EFAULT, [])
  }

  /** The error `process_write_data` returns. */
  function WriteError(m: Bytes, addr: u64, data: seq<byte>): (r: int)
    ensures r == 0 <==> Mapped(m, addr, |data|)
    ensures r != 0 ==> r == -EFAULT
  {
    if Mapped(m, addr, |data|) then 0 else -EFAULT
  }

  /** Memory after `process_write_data`: written only when every byte is mapped. */
  function WriteSpec(m: Bytes, addr: u64, data: seq<byte>): (r: Bytes)
    ensures Mapped(m, addr, |data|) ==> r == Store(m, addr, data)
    ensures !Mapped(m, addr, |data|) ==> r == m
  {
    if Mapped(m, addr, |data|) then Store(m, addr, data) else m
  }

  /** The address space of the traced process. */
  class RemoteMemory {
    var bytes: Bytes

    constructor (initial: Bytes)
      ensures bytes == initial
    {
      bytes := initial;
    }

    /** `process_read_data`. */
    method Read(addr: u64, n: nat) returns (err: int, data: seq<byte>)
      ensures ReadResult(err, data) == ReadSpec(bytes, addr, n)
    {
      if Mapped(bytes, addr, n) {
        err, data := 0, Load(bytes, addr, n);
      } else {
        err, data := -EFAULT, [];
      }
    }

    /** `process_write_data`. */
    method Write(addr: u64, data: seq<byte>) returns (err: int)
      modifies this
      ensures err == WriteError(old(bytes), addr, data)
      ensures bytes == WriteSpec(old(bytes), addr, data)
    {
      if Mapped(bytes, addr, |data|) {
        bytes := Store(bytes, addr, data);
        err := 0;
      } else {
        err := -EFAULT;
      }
    }
  }
}
