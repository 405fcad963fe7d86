/**
 * On-chain numbers of the staking module: the exchange between lamports and pool tokens, and the
 * little-endian layout of instructions and of the pool's validator list.
 */
module StakingChain {
  import opened Wrappers
  import opened Arith

  // ---- Exchange rate ----

  function PoolTokensToLamports(poolTokens: nat, totalLamports: nat, poolTokenSupply: nat): nat {
    if poolTokens == 0 || poolTokenSupply == 0 then 0 else (poolTokens * totalLamports) / poolTokenSupply
  }

  function LamportsToPoolTokens(lamports: nat, totalLamports: nat, poolTokenSupply: nat): nat {
    if lamports == 0 || totalLamports == 0 then 0 else (lamports * poolTokenSupply) / totalLamports
  }

  /** Lamports a validator must hold to pay for burning pool tokens, rounded up. */
  function RequiredLamports(poolTokens: nat, totalLamports: nat, poolTokenSupply: nat): nat {
    if poolTokenSupply > 0 then (poolTokens * totalLamports + poolTokenSupply - 1) / poolTokenSupply else poolTokens
  }

  lemma FloorIs(a: nat, b: nat, c: nat)
    requires c > 0
    ensures LamportsToPoolTokens(a, c, b) == a * b / c
    ensures PoolTokensToLamports(a, b, c) == a * b / c
  {
    if a == 0 {
      assert a * b == 0;
      QuotientIs(0, c, 0);
    }
  }

  lemma CeilAdjoint(n: nat, b: int, x: int)
    requires b > 0
    ensures (n + b - 1) / b <= x <==> n <= x * b
  {
    DivAdjoint(n + b - 1, b, x + 1);
    Distribute(x, 1, b);
  }

  /** The required lamports are the least that would have bought the tokens to be burnt. */
  lemma RequiredIsLeast(lamports: nat, poolTokens: nat, totalLamports: nat, poolTokenSupply: nat)
    requires totalLamports > 0 && poolTokenSupply > 0
    ensures RequiredLamports(poolTokens, totalLamports, poolTokenSupply) <= lamports <==>
            poolTokens <= LamportsToPoolTokens(lamports, totalLamports, poolTokenSupply)
  {
    FloorIs(lamports, poolTokenSupply, totalLamports);
    assert lamports * poolTokenSupply >= 0;
    DivAdjoint(lamports * poolTokenSupply, totalLamports, poolTokens);
    assert poolTokens * totalLamports >= 0;
    CeilAdjoint(poolTokens * totalLamports, poolTokenSupply, lamports);
  }

  /** Burning what a request buys never needs more than the request, and is short of it by less than one pool token. */
  lemma RequiredWithinOneToken(lamports: nat, totalLamports: nat, poolTokenSupply: nat)
    requires totalLamports > 0 && poolTokenSupply > 0
    ensures var t := LamportsToPoolTokens(lamports, totalLamports, poolTokenSupply);
            var y := RequiredLamports(t, totalLamports, poolTokenSupply);
            y <= lamports && (lamports - y) * poolTokenSupply < totalLamports
  {
    var t := LamportsToPoolTokens(lamports, totalLamports, poolTokenSupply);
    var y := RequiredLamports(t, totalLamports, poolTokenSupply);
    RequiredIsLeast(lamports, t, totalLamports, poolTokenSupply);
    FloorIs(lamports, poolTokenSupply, totalLamports);
    DivBounds(lamports * poolTokenSupply, totalLamports);
    assert t * totalLamports >= 0;
    CeilAdjoint(t * totalLamports, poolTokenSupply, y);
    Distribute(lamports, y, poolTokenSupply);
    Distribute(t, 1, totalLamports);
  }

  lemma DivSuperadditive(m: nat, n: nat, b: nat)
    requires b > 0
    ensures m / b + n / b <= (m + n) / b <= m / b + n / b + 1
  {
    DivBounds(m, b);
    DivBounds(n, b);
    Distribute(m / b, n / b, b);
    DivAdjoint(m + n, b, m / b + n / b);
    Distribute(m / b + 1, n / b + 1, b);
    DivAdjoint(m + n, b, m / b + n / b + 2);
  }

  /** Splitting an amount never yields more than converting it whole, and loses less than two units' rounding. */
  lemma SplittingNeverGains(a: nat, b: nat, totalLamports: nat, poolTokenSupply: nat)
    requires totalLamports > 0 && poolTokenSupply > 0
    ensures var f := (x: nat) => LamportsToPoolTokens(x, totalLamports, poolTokenSupply);
            f(a) + f(b) <= f(a + b) <= f(a) + f(b) + 1
    ensures var g := (x: nat) => PoolTokensToLamports(x, totalLamports, poolTokenSupply);
            g(a) + g(b) <= g(a + b) <= g(a) + g(b) + 1
  {
    FloorIs(a, poolTokenSupply, totalLamports);
    FloorIs(b, poolTokenSupply, totalLamports);
    FloorIs(a + b, poolTokenSupply, totalLamports);
    FloorIs(a, totalLamports, poolTokenSupply);
    FloorIs(b, totalLamports, poolTokenSupply);
    FloorIs(a + b, totalLamports, poolTokenSupply);
    hide LamportsToPoolTokens, PoolTokensToLamports;
    Distribute(a, b, poolTokenSupply);
    Distribute(a, b, totalLamports);
    assert a * poolTokenSupply >= 0 && b * poolTokenSupply >= 0 && a * totalLamports >= 0 && b * totalLamports >= 0;
    DivSuperadditive(a * poolTokenSupply, b * poolTokenSupply, totalLamports);
    DivSuperadditive(a * totalLamports, b * totalLamports, poolTokenSupply);
  }

  /** More in, never less out; and converting there and back never gains. */
  lemma ConversionsAreMonotoneAndLossy(a: nat, b: nat, totalLamports: nat, poolTokenSupply: nat)
    requires totalLamports > 0 && poolTokenSupply > 0 && a <= b
    ensures LamportsToPoolTokens(a, totalLamports, poolTokenSupply) <= LamportsToPoolTokens(b, totalLamports, poolTokenSupply)
    ensures PoolTokensToLamports(a, totalLamports, poolTokenSupply) <= PoolTokensToLamports(b, totalLamports, poolTokenSupply)
    ensures PoolTokensToLamports(LamportsToPoolTokens(a, totalLamports, poolTokenSupply), totalLamports, poolTokenSupply) <= a
  {
    SplittingNeverGains(a, b - a, totalLamports, poolTokenSupply);
    var t := LamportsToPoolTokens(a, totalLamports, poolTokenSupply);
    FloorIs(a, poolTokenSupply, totalLamports);
    FloorIs(t, totalLamports, poolTokenSupply);
    hide LamportsToPoolTokens, PoolTokensToLamports;
    DivBounds(a * poolTokenSupply, totalLamports);
    DivBounds(t * totalLamports, poolTokenSupply);
    var y := t * totalLamports / poolTokenSupply;
    if y > a {
      MulMonotone(a + 1, y, poolTokenSupply);
      Distribute(a, 1, poolTokenSupply);
    }
  }

  // ---- Little-endian bytes ----

  type byte = x: int | 0 <= x < 256
  type Bytes = seq<byte>

  const U32_FACTOR := 0x1_0000_0000
  const U64_FACTOR := 0x1_0000_0000_0000_0000

  function U32LE(v: nat): (r: Bytes)
    requires v < U32_FACTOR
    ensures |r| == 4
  {
    [v % 256, v / 256 % 256, v / 256 / 256 % 256, v / 256 / 256 / 256]
  }

  function U32At(data: Bytes, offset: nat): (r: nat)
    requires offset + 4 <= |data|
    ensures r < U32_FACTOR
  {
    var b0: int, b1: int, b2: int, b3: int := data[offset], data[offset + 1], data[offset + 2], data[offset + 3];
    b0 + 256 * (b1 + 256 * (b2 + 256 * b3))
  }

  /** Eight bytes of a value modulo 2^64, lowest first. */
  function U64LE(value: nat): (r: Bytes)
    ensures |r| == 8
  {
    var v := value % U64_FACTOR;
    U32LE(v % U32_FACTOR) + U32LE(v / U32_FACTOR)
  }

  /** None where the read runs past the buffer and throws. */
  function ReadU64LE(data: Bytes, offset: nat): Option<nat> {
    if offset + 8 <= |data| then Some(U32At(data, offset) + U32At(data, offset + 4) * U32_FACTOR) else None
  }

  lemma LowByte(b: int, rest: int)
    requires 0 <= b < 256
    ensures (b + 256 * rest) % 256 == b && (b + 256 * rest) / 256 == rest
  {
  }

  lemma U32RoundTrip(v: nat, pre: Bytes, post: Bytes)
    requires v < U32_FACTOR
    ensures U32At(pre + U32LE(v) + post, |pre|) == v
  {
    var data := pre + U32LE(v) + post;
    assert data[|pre|] == v % 256;
    assert data[|pre| + 1] == v / 256 % 256;
    assert data[|pre| + 2] == v / 256 / 256 % 256;
    assert data[|pre| + 3] == v / 256 / 256 / 256;
  }

  /** Reading where a value was written gives it back modulo 2^64, whatever surrounds it. */
  lemma ReadBackU64(value: nat, pre: Bytes, post: Bytes)
    ensures ReadU64LE(pre + U64LE(value) + post, |pre|) == Some(value % U64_FACTOR)
  {
    var v := value % U64_FACTOR;
    var lo, hi := v % U32_FACTOR, v / U32_FACTOR;
    var data := pre + U64LE(value) + post;
    U32RoundTrip(lo, pre, U32LE(hi) + post);
    assert data == pre + U32LE(lo) + (U32LE(hi) + post);
    U32RoundTrip(hi, pre + U32LE(lo), post);
    assert data == (pre + U32LE(lo)) + U32LE(hi) + post;
    hide U32LE, U32At, U64LE;
  }

  lemma U32BytesOf(b: Bytes)
    requires |b| == 4
    ensures U32LE(U32At(b, 0)) == b
  {
    var b0: int, b1: int, b2: int, b3: int := b[0], b[1], b[2], b[3];
    LowByte(b2, b3);
    LowByte(b1, b2 + 256 * b3);
    LowByte(b0, b1 + 256 * (b2 + 256 * b3));
  }

  lemma U32AtSlice(b: Bytes, offset: nat)
    requires offset + 4 <= |b|
    ensures U32At(b[offset..offset + 4], 0) == U32At(b, offset)
  {
  }

  lemma HalvesOf(lo: nat, hi: nat)
    requires lo < U32_FACTOR && hi < U32_FACTOR
    ensures var v := lo + hi * U32_FACTOR; v < U64_FACTOR && v % U32_FACTOR == lo && v / U32_FACTOR == hi
  {
  }

  /** Writing what was read gives the eight bytes back. */
  lemma WriteBackU64(b: Bytes)
    requires |b| == 8
    ensures ReadU64LE(b, 0).Some? && ReadU64LE(b, 0).value < U64_FACTOR && U64LE(ReadU64LE(b, 0).value) == b
  {
    var lo, hi := U32At(b, 0), U32At(b, 4);
    U32AtSlice(b, 0);
    U32AtSlice(b, 4);
    U32BytesOf(b[0..4]);
    U32BytesOf(b[4..8]);
    HalvesOf(lo, hi);
    JoinHalves(lo, hi, b);
  }

  lemma JoinHalves(lo: nat, hi: nat, b: Bytes)
    requires lo < U32_FACTOR && hi < U32_FACTOR && |b| == 8
    requires U32LE(lo) == b[0..4] && U32LE(hi) == b[4..8]
    ensures U64LE(lo + hi * U32_FACTOR) == b
  {
    hide U32LE;
    HalvesOf(lo, hi);
    assert (lo + hi * U32_FACTOR) % U64_FACTOR == lo + hi * U32_FACTOR;
    assert b == b[0..4] + b[4..8];
  }

  function Flatten(parts: seq<Bytes>): (r: Bytes) {
    if parts == [] then [] else Flatten(parts[..|parts| - 1]) + parts[|parts| - 1]
  }

  /** Copy the parts one after another into a buffer of their total length. */
  method Concat(parts: seq<Bytes>) returns (out: array<byte>)
    ensures fresh(out) && out[..] == Flatten(parts)
  {
    var total := 0;
    for i := 0 to |parts|
      invariant total == |Flatten(parts[..i])|
    {
      assert parts[..i + 1][..i] == parts[..i];
      total := total + |parts[i]|;
    }
    assert parts[..|parts|] == parts;
    out := new byte[total];
    var offset := 0;
    for i := 0 to |parts|
      invariant offset == |Flatten(parts[..i])| <= total == out.Length
      invariant out[..offset] == Flatten(parts[..i])
    {
      assert parts[..i + 1][..i] == parts[..i];
      FlattenPrefix(parts, i + 1);
      var part := parts[i];
      forall k | 0 <= k < |part| {
        out[offset + k] := part[k];
      }
      assert out[..offset + |part|] == out[..offset] + part;
      offset := offset + |part|;
    }
  }

  lemma {:induction false} FlattenPrefix(parts: seq<Bytes>, n: nat)
    requires n <= |parts|
    ensures |Flatten(parts[..n])| <= |Flatten(parts)|
  {
    if n == |parts| {
      assert parts[..n] == parts;
    } else {
      FlattenPrefix(parts[..|parts| - 1], n);
      assert parts[..|parts| - 1][..n] == parts[..n];
    }
  }

  // ---- Instruction data ----

  datatype Action = StakeLiquid | UnstakeLiquid | StakeNative | UnstakeNative | WithdrawNative

  /** Instruction data: an 8-byte discriminator, then the action's numbers. */
  function InstructionData(disc: Bytes, action: Action, seed: nat, amount: nat): Bytes {
    match action
    case StakeLiquid => Flatten([disc, U64LE(amount)])
    case UnstakeLiquid => Flatten([disc, U64LE(amount)])
    case StakeNative => Flatten([disc, U64LE(seed), U64LE(amount)])
    case UnstakeNative => disc
    case WithdrawNative => Flatten([disc, U64LE(amount)])
  }

  /** The lamports the history shows for an instruction, zero where it reads none. */
  function ParseStakeLamports(data: Bytes, action: Action): nat {
    if (action == StakeLiquid || action == WithdrawNative) && |data| >= 16 then ReadU64LE(data, 8).value
    else if action == StakeNative && |data| >= 24 then ReadU64LE(data, 16).value
    else 0
  }

  lemma FlattenTwo(a: Bytes, b: Bytes)
    ensures Flatten([a, b]) == a + b
  {
    assert [a, b][..1] == [a] && [a][..0] == [];
    assert Flatten([]) == [];
    assert Flatten([a]) == a;
  }

  lemma FlattenThree(a: Bytes, b: Bytes, c: Bytes)
    ensures Flatten([a, b, c]) == a + b + c
  {
    FlattenTwo(a, b);
    assert [a, b, c][..2] == [a, b];
  }

  /** The history reads back the amount that was built in, modulo 2^64, so exactly when it fits. */
  lemma HistoryReadsAmountBuilt(disc: Bytes, action: Action, seed: nat, amount: nat)
    requires |disc| == 8 && (action == StakeLiquid || action == StakeNative || action == WithdrawNative)
    ensures var shown := ParseStakeLamports(InstructionData(disc, action, seed, amount), action);
            shown == amount % U64_FACTOR && (shown == amount <==> amount < U64_FACTOR)
  {
    hide U64LE, ReadU64LE;
    if action == StakeNative {
      FlattenThree(disc, U64LE(seed), U64LE(amount));
      ReadBackU64(amount, disc + U64LE(seed), []);
      assert InstructionData(disc, action, seed, amount) == (disc + U64LE(seed)) + U64LE(amount) + [];
    } else {
      FlattenTwo(disc, U64LE(amount));
      ReadBackU64(amount, disc, []);
      assert InstructionData(disc, action, seed, amount) == disc + U64LE(amount) + [];
    }
  }

  /** Every builder puts the discriminator first; an unstake then carries the pool tokens, a native stake its seed. */
  lemma DataLayout(disc: Bytes, action: Action, seed: nat, amount: nat)
    requires |disc| == 8
    ensures var data := InstructionData(disc, action, seed, amount);
            && |data| == (match action case StakeNative => 24 case UnstakeNative => 8 case _ => 16)
            && data[..8] == disc
            && (action == UnstakeLiquid ==> ReadU64LE(data, 8) == Some(amount % U64_FACTOR))
            && (action == StakeNative ==> ReadU64LE(data, 8) == Some(seed % U64_FACTOR))
            && (action == UnstakeLiquid || action == UnstakeNative ==> ParseStakeLamports(data, action) == 0)
  {
    hide U64LE, ReadU64LE;
    if action == StakeNative {
      FlattenThree(disc, U64LE(seed), U64LE(amount));
      ReadBackU64(seed, disc, U64LE(amount));
    } else if action != UnstakeNative {
      FlattenTwo(disc, U64LE(amount));
      ReadBackU64(amount, disc, []);
      assert InstructionData(disc, action, seed, amount) == disc + U64LE(amount) + [];
    }
  }

  // ---- The validator list ----

  const LIST_LEN_OFFSET := 5
  const LIST_ENTRY_OFFSET := 9
  const ENTRY_SIZE := 73
  const STATUS_OFFSET := 40
  const VOTE_OFFSET := 41

  datatype Validator = Validator(status: byte, activeStakeLamports: nat, voteAccount: Bytes)

  /** One entry, None where a read runs past the buffer. */
  function EntryAt(data: Bytes, offset: nat): Option<Validator> {
    if offset + ENTRY_SIZE <= |data| then
      Some(Validator(data[offset + STATUS_OFFSET], ReadU64LE(data, offset).value,
                     data[offset + VOTE_OFFSET..offset + VOTE_OFFSET + 32]))
    else None
  }

  function EntriesUpTo(data: Bytes, count: nat): Option<seq<Validator>> {
    if count == 0 then Some([]) else
      match (EntriesUpTo(data, count - 1), EntryAt(data, LIST_ENTRY_OFFSET + (count - 1) * ENTRY_SIZE))
      case (Some(vs), Some(v)) => Some(vs + [v])
      case _ => None
  }

  method DecodeValidatorList(data: Bytes) returns (r: Option<seq<Validator>>)
    ensures r == if 9 <= |data| then EntriesUpTo(data, U32At(data, 5)) else None
  {
    if LIST_LEN_OFFSET + 4 > |data| { return None; }
    var count := U32At(data, LIST_LEN_OFFSET);
    var validators: seq<Validator> := [];
    var index := 0;
    while index < count
      invariant 0 <= index <= count
      invariant EntriesUpTo(data, index) == Some(validators)
    {
      var entry := EntryAt(data, LIST_ENTRY_OFFSET + index * ENTRY_SIZE);
      if entry.None? {
        FailureSpreads(data, index + 1, count);
        return None;
      }
      validators := validators + [entry.value];
      index := index + 1;
    }
    return Some(validators);
  }

  lemma {:induction false} FailureSpreads(data: Bytes, n: nat, count: nat)
    requires n <= count && EntriesUpTo(data, n) == None
    ensures EntriesUpTo(data, count) == None
  {
    if n < count { FailureSpreads(data, n, count - 1); }
  }

  /** A list decodes exactly when the buffer holds all the entries its count announces. */
  lemma {:induction false} DecodesIffLongEnough(data: Bytes, count: nat)
    requires 9 <= |data|
    ensures EntriesUpTo(data, count).Some? <==> 9 + count * 73 <= |data|
    ensures EntriesUpTo(data, count).Some? ==> |EntriesUpTo(data, count).value| == count
  {
    if count > 0 { DecodesIffLongEnough(data, count - 1); }
  }

  predicate Encodable(v: Validator, filler: Bytes) {
    v.activeStakeLamports < U64_FACTOR && |v.voteAccount| == 32 && |filler| == 32
  }

  /** An entry's layout; the bytes between stake and status are not read. */
  function EncodeEntry(v: Validator, filler: Bytes): (r: Bytes)
    requires Encodable(v, filler)
    ensures |r| == 73
  {
    U64LE(v.activeStakeLamports) + filler + [v.status] + v.voteAccount
  }

  function EncodeEntries(vs: seq<Validator>, fillers: seq<Bytes>): (r: Bytes)
    requires |vs| == |fillers| && forall i :: 0 <= i < |vs| ==> Encodable(vs[i], fillers[i])
    ensures |r| == |vs| * 73
  {
    if vs == [] then [] else
      var n := |vs| - 1;
      EncodeEntries(vs[..n], fillers[..n]) + EncodeEntry(vs[n], fillers[n])
  }

  lemma EntryRoundTrip(v: Validator, filler: Bytes, pre: Bytes, post: Bytes)
    requires Encodable(v, filler)
    ensures EntryAt(pre + EncodeEntry(v, filler) + post, |pre|) == Some(v)
  {
    hide U64LE, ReadU64LE;
    var data := pre + EncodeEntry(v, filler) + post;
    var rest := filler + [v.status] + v.voteAccount + post;
    ReadBackU64(v.activeStakeLamports, pre, rest);
    assert data == pre + U64LE(v.activeStakeLamports) + rest;
    var head := pre + U64LE(v.activeStakeLamports) + filler;
    assert data == head + [v.status] + v.voteAccount + post;
    assert |head| == |pre| + STATUS_OFFSET;
    assert data[|head|] == v.status;
    assert data[|head| + 1..|head| + 33] == v.voteAccount;
  }

  /** Decoding an encoded list gives the list back, whatever precedes the count or follows the entries. */
  lemma {:induction false} ListRoundTrip(vs: seq<Validator>, fillers: seq<Bytes>, header: Bytes, tail: Bytes)
    requires |vs| == |fillers| && forall i :: 0 <= i < |vs| ==> Encodable(vs[i], fillers[i])
    requires |header| == 9
    ensures EntriesUpTo(header + EncodeEntries(vs, fillers) + tail, |vs|) == Some(vs)
    decreases |vs|
  {
    hide EncodeEntry, EntryAt, Encodable;
    if vs != [] {
      var n := |vs| - 1;
      var data := header + EncodeEntries(vs, fillers) + tail;
      var last := EncodeEntry(vs[n], fillers[n]);
      var front := EncodeEntries(vs[..n], fillers[..n]);
      assert EncodeEntries(vs, fillers) == front + last;
      Regroup(header, front, last, tail);
      assert EntriesUpTo(data, n) == Some(vs[..n]) by {
        ListRoundTrip(vs[..n], fillers[..n], header, last + tail);
      }
      assert EntryAt(data, LIST_ENTRY_OFFSET + n * ENTRY_SIZE) == Some(vs[n]) by {
        EntryRoundTrip(vs[n], fillers[n], header + front, tail);
        assert |header + front| == LIST_ENTRY_OFFSET + n * ENTRY_SIZE;
      }
      assert vs == vs[..n] + [vs[n]];
    }
  }

  lemma Regroup(a: Bytes, b: Bytes, c: Bytes, d: Bytes)
    ensures a + (b + c) + d == a + b + (c + d) == (a + b) + c + d
  {
  }

  /** The account as stored: five bytes, the count, the entries, and unused space. */
  lemma AccountRoundTrip(vs: seq<Validator>, fillers: seq<Bytes>, head: Bytes, tail: Bytes)
    requires |vs| == |fillers| && forall i :: 0 <= i < |vs| ==> Encodable(vs[i], fillers[i])
    requires |head| == 5 && |vs| < U32_FACTOR
    ensures var data := head + U32LE(|vs|) + EncodeEntries(vs, fillers) + tail;
            U32At(data, 5) == |vs| && EntriesUpTo(data, |vs|) == Some(vs)
  {
    hide U32LE, U32At, EncodeEntries, EntriesUpTo;
    U32RoundTrip(|vs|, head, EncodeEntries(vs, fillers) + tail);
    Regroup(head, U32LE(|vs|), EncodeEntries(vs, fillers), tail);
    ListRoundTrip(vs, fillers, head + U32LE(|vs|), tail);
  }
}
