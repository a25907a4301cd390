/** Fixed-width unsigned arithmetic of the C source: `uint32_t` timestamps and
    delays, and the `uint8_t` wake-lock counters. C unsigned arithmetic wraps
    modulo 2^width; Dafny's `%` is Euclidean, so `% 2^width` is exactly that wrap. */
module Uint {

  const MOD32: int := 0x1_0000_0000
  const MOD8: int := 0x100

  type u32 = x: int | 0 <= x < 0x1_0000_0000
  type u8 = x: int | 0 <= x < 0x100

  /** `a + b` on `uint32_t`. */
  function Add32(a: u32, b: u32): (r: u32)
    ensures r == a + b || r == a + b - MOD32
  {
    (a + b) % MOD32
  }

  /** `a - b` on `uint32_t`: the distance from `b` forward to `a` on the wrapping clock. */
  function Sub32(a: u32, b: u32): (r: u32)
    ensures r == a - b || r == a - b + MOD32
  {
    (a - b) % MOD32
  }

  /** `x += 1U` on `uint8_t`. */
  function Inc8(x: u8): (r: u8)
    ensures r == if x == MOD8 - 1 then 0 else x + 1
  {
    (x + 1) % MOD8
  }

  /** `x -= 1U` on `uint8_t`, with no guard against zero. */
  function Dec8(x: u8): (r: u8)
    ensures r == if x == 0 then MOD8 - 1 else x - 1
  {
    (x - 1) % MOD8
  }

  /** Consecutive distances on the wrapping clock add up: o -> a -> b is o -> b. */
  lemma SubChain(o: u32, a: u32, b: u32)
    ensures Add32(Sub32(a, o), Sub32(b, a)) == Sub32(b, o)
  {
  }

  /** `Dec8` undoes `Inc8` and vice versa: the global counter of a hold/release pair is restored. */
  lemma IncDecRoundTrip(x: u8)
    ensures Dec8(Inc8(x)) == x
    ensures Inc8(Dec8(x)) == x
  {
  }

  /** The running total, modulo 2^32, of a sequence of `uint32_t` amounts. */
  function Sum32(s: seq<u32>): u32
  {
    if s == [] then 0 else Add32(Sum32(s[..|s| - 1]), s[|s| - 1])
  }

  /** Adding one more amount to the log adds it to the total. */
  lemma Sum32Append(s: seq<u32>, x: u32)
    ensures Sum32(s + [x]) == Add32(Sum32(s), x)
  {
    assert (s + [x])[..|s + [x]| - 1] == s;
  }

  /** One more elapsed amount keeps a running total equal to the distance travelled. */
  lemma AccountStep(s: seq<u32>, origin: u32, last: u32, now: u32)
    requires Sum32(s) == Sub32(last, origin)
    ensures Sum32(s + [Sub32(now, last)]) == Sub32(now, origin)
  {
    Sum32Append(s, Sub32(now, last));
    SubChain(origin, last, now);
  }
}
