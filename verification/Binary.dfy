/** The big-endian 32-bit lengths that both on-disk formats put in their record headers. */
module Binary {
  import opened Bytes

  const UINT32: nat := 0x1_0000_0000

  /** `binary.BigEndian.PutUint32` of `uint32(n)`: longer lengths are truncated. */
  function PutUint32(n: nat): (b: seq<Byte>)
    ensures |b| == 4
  {
    var m := n % UINT32;
    [m / 0x100_0000, m / 0x1_0000 % 256, m / 256 % 256, m % 256]
  }

  function Uint32(b: seq<Byte>): (n: nat)
    requires |b| == 4
    ensures n < UINT32
  {
    ((b[0] as int * 256 + b[1] as int) * 256 + b[2] as int) * 256 + b[3] as int
  }

  lemma ReadBack(n: nat)
    ensures Uint32(PutUint32(n)) == n % UINT32
  {
    Bytewise(n % UINT32);
  }

  lemma Bytewise(m: nat)
    requires m < UINT32
    ensures m == ((m / 0x100_0000 * 256 + m / 0x1_0000 % 256) * 256 + m / 256 % 256) * 256 + m % 256
  {
    var a := m / 256;
    var b := a / 256;
    assert b == m / 0x1_0000;
    assert b / 256 == m / 0x100_0000;
    assert b == b / 256 * 256 + b % 256;
    assert a == b * 256 + a % 256;
    assert m == a * 256 + m % 256;
  }

  lemma WriteBack(b: seq<Byte>)
    requires |b| == 4
    ensures PutUint32(Uint32(b)) == b
  {
    Digits(b[0], b[1], b[2], b[3]);
  }

  lemma Digits(a: Byte, b: Byte, c: Byte, d: Byte)
    ensures var n := ((a as int * 256 + b as int) * 256 + c as int) * 256 + d as int;
            n % 256 == d && n / 256 % 256 == c && n / 0x1_0000 % 256 == b && n / 0x100_0000 == a
  {
    var high := a as int * 256 + b as int;
    var middle := high * 256 + c as int;
    var n := middle * 256 + d as int;
    assert n / 256 == middle && middle / 256 == high && high / 256 == a;
    assert n / 0x1_0000 == high;
  }

  /** The most significant byte comes first: encoded lengths are in the order of bytes exactly as the numbers are. */
  lemma BigEndian(m: nat, n: nat)
    requires m < UINT32 && n < UINT32
    ensures Less(PutUint32(m), PutUint32(n)) <==> m < n
  {
    ReadBack(m);
    ReadBack(n);
    hide PutUint32;
    hide Uint32;
    if m < n {
      SmallerFirst(PutUint32(m), PutUint32(n));
    } else if n < m {
      SmallerFirst(PutUint32(n), PutUint32(m));
      LessTrichotomy(PutUint32(n), PutUint32(m));
    } else {
      LessIrreflexive(PutUint32(m));
    }
  }

  lemma SmallerFirst(a: seq<Byte>, b: seq<Byte>)
    requires |a| == |b| == 4 && Uint32(a) < Uint32(b)
    ensures Less(a, b)
  {
    var i := if a[0] != b[0] then 0 else if a[1] != b[1] then 1 else if a[2] != b[2] then 2 else 3;
    assert a[..i] == b[..i] && a[i] < b[i];
    LessExactly(a, b);
  }
}
