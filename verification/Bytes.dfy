/** Bytes, optional values, parse results and a map lemma shared by the other modules. */
module Bytes {
  /** An octet of a wire stream (`pb_byte_t`). */
  type byte = x: int | 0 <= x < 256

  const UINT31 := 0x8000_0000
  const UINT32 := 0x1_0000_0000
  const UINT63 := 0x8000_0000_0000_0000
  const UINT64 := 0x1_0000_0000_0000_0000

  datatype Option<+T> = None | Some(value: T)

  /** A parser either rejects its input or yields a value and the unread rest. */
  datatype Parse<+T> = Bad | Good(value: T, rest: seq<byte>)

  /** Splits off exactly `n` bytes, as `pb_read` does on a buffer stream. */
  function Take(s: seq<byte>, n: nat): (r: Parse<seq<byte>>)
    ensures r.Good? ==> s == r.value + r.rest && |r.value| == n
    ensures r.Bad? <==> |s| < n
  {
    if |s| < n then Bad else Good(s[..n], s[n..])
  }

  /** Taking a key out of a map makes it smaller. */
  lemma {:induction false} SmallerMap<K, V>(m: map<K, V>, k: K)
    requires k in m
    ensures |m - {k}| == |m| - 1
  {
    assert (m - {k}).Keys == m.Keys - {k};
    assert |m.Keys| == |m|;
    assert |(m - {k}).Keys| == |m - {k}|;
  }
}
