/**
 What the LZ4 compressor finds: the search with its growing steps, the hash table it keeps, the catch-up and
 the matches that follow each other, as functions. The methods of `Lz4Compress` are proved to write this.
 */
module Lz4Greedy {
  import opened Values
  import opened Wrappers
  import opened Lz4Format
  import Lz4Copy
  import Lz4Count

  const MAX_INPUT_SIZE: nat := 0x7E00_0000
  const LIMIT_64K: nat := 65536 + (MFLIMIT - 1)
  const MIN_LENGTH: nat := MFLIMIT + 1
  const SKIP_TRIGGER_ROUNDS: nat := 64
  const ACCELERATION_DEFAULT: nat := 1
  const ACCELERATION_MAX: nat := 65537

  // ---------- the hash table ----------

  /** How positions are stored: in 32 or in 16 bits. */
  datatype TableType = ByU32 | ByU16

  predicate Addressable(tt: TableType, n: nat) {
    n <= MAX_INPUT_SIZE && (tt == ByU16 ==> n < LIMIT_64K)
  }

  function Stored(tt: TableType, index: nat): nat {
    match tt
    case ByU32 => index % U32_RANGE
    case ByU16 => index % 65536
  }

  /** The bytes the hash of a position looks at. */
  function Window(src: Bytes, p: nat, tt: TableType): Bytes
    requires p + 8 <= |src|
  {
    if tt == ByU16 then src[p..p + 4] else src[p..p + 8]
  }

  ghost predicate HashFits(hash: Bytes -> nat, size: nat) {
    forall w :: hash(w) < size
  }

  /** Every entry of the table is an earlier position. */
  ghost predicate Below(table: seq<nat>, p: nat) {
    forall h :: 0 <= h < |table| ==> table[h] < p
  }

  lemma BelowUpdate(table: seq<nat>, p: nat, h: nat, index: nat, q: nat)
    requires Below(table, p) && h < |table| && index < q && p <= q
    ensures Below(table[h := index], q)
  {
  }

  function TableFor(n: nat): TableType {
    if n < LIMIT_64K then ByU16 else ByU32
  }

  function TableSize(tt: TableType): nat {
    match tt
    case ByU32 => 4096
    case ByU16 => 8192
  }

  // ---------- one search ----------

  /** The i-th position of a search from `ip`: first one step, then `acc`, and one more after every 64 visits. */
  function Visit(ip: nat, acc: nat, i: nat): nat {
    if i == 0 then ip
    else if i == 1 then ip + 1
    else Visit(ip, acc, i - 1) + acc + (i - 2) / SKIP_TRIGGER_ROUNDS
  }

  /** The search looks at its i-th position only if the one after it could still be one. */
  predicate Looked(src: Bytes, ip: nat, acc: nat, i: nat) {
    Visit(ip, acc, i + 1) + (MFLIMIT - 1) <= |src|
  }

  /** What the table has for a position: the last one remembered with the same hash. */
  function Candidate(src: Bytes, table: seq<nat>, tt: TableType, hash: Bytes -> nat, p: nat): nat
    requires p + 8 <= |src| && HashFits(hash, |table|)
  {
    table[hash(Window(src, p, tt))]
  }

  function Remember(src: Bytes, table: seq<nat>, tt: TableType, hash: Bytes -> nat, p: nat): (r: seq<nat>)
    requires p + 8 <= |src| && HashFits(hash, |table|)
    ensures |r| == |table|
  {
    table[hash(Window(src, p, tt)) := p]
  }

  /** A match: the candidate is near enough and starts with the same 4 bytes. */
  predicate Hit(src: Bytes, table: seq<nat>, tt: TableType, hash: Bytes -> nat, p: nat)
    requires p + 8 <= |src| && HashFits(hash, |table|)
  {
    var m := Candidate(src, table, tt, hash, p);
    m < p <= m + DISTANCE_MAX && src[m..m + MINMATCH] == src[p..p + MINMATCH]
  }

  /** The table once the first `i` positions of a search are remembered. */
  function Filled(src: Bytes, table: seq<nat>, tt: TableType, hash: Bytes -> nat, ip: nat, acc: nat,
                  i: nat): (r: seq<nat>)
    requires HashFits(hash, |table|) && acc >= 1 && Visit(ip, acc, i) + (MFLIMIT - 1) <= |src|
    ensures |r| == |table|
  {
    if i == 0 then table
    else
      VisitGrows(ip, acc, i - 1);
      Remember(src, Filled(src, table, tt, hash, ip, acc, i - 1), tt, hash, Visit(ip, acc, i - 1))
  }

  lemma VisitGrows(ip: nat, acc: nat, i: nat)
    requires acc >= 1
    ensures Visit(ip, acc, i) < Visit(ip, acc, i + 1)
  {
  }

  /** The first match that a search finds from its i-th position on. */
  function FirstHit(src: Bytes, table: seq<nat>, tt: TableType, hash: Bytes -> nat, ip: nat, acc: nat,
                    i: nat): Option<nat>
    requires HashFits(hash, |table|) && acc >= 1 && Visit(ip, acc, i) + (MFLIMIT - 1) <= |src|
    decreases |src| - Visit(ip, acc, i)
  {
    VisitGrows(ip, acc, i);
    if !Looked(src, ip, acc, i) then None
    else if Hit(src, Filled(src, table, tt, hash, ip, acc, i), tt, hash, Visit(ip, acc, i)) then Some(i)
    else FirstHit(src, table, tt, hash, ip, acc, i + 1)
  }

  // ---------- one match ----------

  /** How far a match can be moved back over equal bytes. */
  function Backed(src: Bytes, anchor: nat, ip: nat, m: nat): (k: nat)
    requires m < ip <= |src|
    ensures k <= m && (anchor <= ip ==> anchor + k <= ip)
    decreases m
  {
    if ip > anchor && m > 0 && src[ip - 1] == src[m - 1] then 1 + Backed(src, anchor, ip - 1, m - 1) else 0
  }

  /** As long as it goes without reaching into the last 5 bytes. */
  function MatchLen(src: Bytes, ip: nat, m: nat): nat
    requires m < ip && ip + MFLIMIT <= |src|
  {
    MINMATCH + Lz4Count.CommonPrefix(src, ip + MINMATCH, m + MINMATCH, |src| - LASTLITERALS)
  }

  /** A match that the search found is at least as long as what the catch-up and the first comparison saw. */
  lemma ReachesKnown(s: Bytes, ip: nat, m: nat, known: nat)
    requires m < ip <= known && known + MFLIMIT <= |s| && s[m..m + (known - ip) + MINMATCH] == s[ip..known + MINMATCH]
    ensures known + MINMATCH <= ip + MatchLen(s, ip, m) <= |s| - LASTLITERALS
  {
    var limit := |s| - LASTLITERALS;
    var n := Lz4Count.CommonPrefix(s, ip + MINMATCH, m + MINMATCH, limit);
    PrefixStops(s, ip + MINMATCH, m + MINMATCH, limit);
    var k := if n < known - ip then MINMATCH + n else 0;
    assert s[ip..known + MINMATCH][k] == s[m..m + (known - ip) + MINMATCH][k];
    assert s[ip + k] == s[m + k];
  }

  lemma {:induction false} PrefixStops(s: Bytes, a: nat, b: nat, limit: nat)
    requires b <= a <= limit <= |s|
    ensures var n := Lz4Count.CommonPrefix(s, a, b, limit); a + n < limit ==> s[a + n] != s[b + n]
    decreases limit - a
  {
    if a < limit && s[a] == s[b] { PrefixStops(s, a + 1, b + 1, limit); }
  }

  /** Moving back keeps the bytes equal. */
  lemma {:induction false} BackedAgrees(s: Bytes, anchor: nat, ip: nat, m: nat, n: nat)
    requires m < ip && ip + n <= |s| && s[m..m + n] == s[ip..ip + n]
    ensures var k := Backed(s, anchor, ip, m); k <= m && s[m - k..m + n] == s[ip - k..ip + n]
    decreases m
  {
    if ip > anchor && m > 0 && s[ip - 1] == s[m - 1] {
      assert s[m - 1..m + n] == [s[m - 1]] + s[m..m + n] == [s[ip - 1]] + s[ip..ip + n] == s[ip - 1..ip + n];
      BackedAgrees(s, anchor, ip - 1, m - 1, n + 1);
    }
  }

  /** And it goes on until the bytes differ, or the last sequence or the input begins. */
  lemma {:induction false} BackedStops(s: Bytes, anchor: nat, ip: nat, m: nat)
    requires m < ip <= |s| && anchor <= ip
    ensures var k := Backed(s, anchor, ip, m);
      && k <= m && anchor + k <= ip
      && (k == m || anchor + k == ip || s[m - k - 1] != s[ip - k - 1])
    decreases m
  {
    if ip > anchor && m > 0 && s[ip - 1] == s[m - 1] {
      BackedStops(s, anchor, ip - 1, m - 1);
    }
  }

  lemma Matched(s: Bytes, ip: nat, match_: nat, limit: nat)
    requires match_ < ip && ip + MINMATCH <= limit <= |s| && s[match_..match_ + MINMATCH] == s[ip..ip + MINMATCH]
    ensures var n := Lz4Count.CommonPrefix(s, ip + MINMATCH, match_ + MINMATCH, limit);
      Lz4Copy.Periodic(s, ip, ip + n + MINMATCH, ip - match_)
  {
    var n := Lz4Count.CommonPrefix(s, ip + MINMATCH, match_ + MINMATCH, limit);
    CommonPrefixAgrees(s, ip + MINMATCH, match_ + MINMATCH, limit);
    forall k | ip <= k < ip + n + MINMATCH ensures s[k] == s[k - (ip - match_)] {
      if k < ip + MINMATCH {
        assert s[k] == s[ip..ip + MINMATCH][k - ip] == s[match_..match_ + MINMATCH][k - ip];
      }
    }
  }

  lemma {:induction false} CommonPrefixAgrees(s: Bytes, a: nat, b: nat, limit: nat)
    requires b <= a <= limit <= |s|
    ensures forall k :: a <= k < a + Lz4Count.CommonPrefix(s, a, b, limit) ==> s[k] == s[k - (a - b)]
    decreases limit - a
  {
    if a < limit && s[a] == s[b] { CommonPrefixAgrees(s, a + 1, b + 1, limit); }
  }

  // ---------- the whole input ----------

  /** What the searches and matches come to: sequences, and where the last literals begin. */
  datatype Found = Found(qs: seq<Seqn>, anchor: nat)

  ghost predicate Ready(src: Bytes, table: seq<nat>, tt: TableType, hash: Bytes -> nat, acc: nat, p: nat) {
    MIN_LENGTH <= |src| <= MAX_INPUT_SIZE && HashFits(hash, |table|) && acc >= 1 && Below(table, p)
  }

  lemma {:induction false} FilledBelow(src: Bytes, table: seq<nat>, tt: TableType, hash: Bytes -> nat, ip: nat,
                                       acc: nat,
                                       i: nat)
    requires HashFits(hash, |table|) && acc >= 1 && Visit(ip, acc, i) + (MFLIMIT - 1) <= |src| && Below(table, ip)
    ensures Below(Filled(src, table, tt, hash, ip, acc, i), Visit(ip, acc, i))
  {
    if i > 0 {
      VisitGrows(ip, acc, i - 1);
      FilledBelow(src, table, tt, hash, ip, acc, i - 1);
    }
  }

  /** The `j`-th visit of a search would find a match. */
  predicate HitOn(src: Bytes, table: seq<nat>, tt: TableType, hash: Bytes -> nat, ip: nat, acc: nat, j: nat)
    requires HashFits(hash, |table|) && acc >= 1 && Looked(src, ip, acc, j)
  {
    VisitGrows(ip, acc, j);
    Hit(src, Filled(src, table, tt, hash, ip, acc, j), tt, hash, Visit(ip, acc, j))
  }

  /** The search ends at a match, */
  lemma {:induction false} FirstHitHits(src: Bytes, table: seq<nat>, tt: TableType, hash: Bytes -> nat, ip: nat,
                                        acc: nat, i: nat)
    requires HashFits(hash, |table|) && acc >= 1 && Visit(ip, acc, i) + (MFLIMIT - 1) <= |src|
    ensures var r := FirstHit(src, table, tt, hash, ip, acc, i);
      r.Some? ==> i <= r.value && Looked(src, ip, acc, r.value) && HitOn(src, table, tt, hash, ip, acc, r.value)
    decreases |src| - Visit(ip, acc, i)
  {
    hide Hit, Filled;
    VisitGrows(ip, acc, i);
    if Looked(src, ip, acc, i) && !HitOn(src, table, tt, hash, ip, acc, i) {
      hide Visit;
      FirstHitHits(src, table, tt, hash, ip, acc, i + 1);
    }
  }

  /** and passes none before it; without a match it goes on to the end. */
  lemma {:induction false} FirstHitIsFirst(src: Bytes, table: seq<nat>, tt: TableType, hash: Bytes -> nat, ip: nat,
                                           acc: nat, i: nat, j: nat)
    requires HashFits(hash, |table|) && acc >= 1 && Visit(ip, acc, i) + (MFLIMIT - 1) <= |src|
    requires i <= j && Looked(src, ip, acc, j)
    ensures var r := FirstHit(src, table, tt, hash, ip, acc, i);
      r.None? || j < r.value ==> !HitOn(src, table, tt, hash, ip, acc, j)
    decreases |src| - Visit(ip, acc, i)
  {
    hide Hit, Filled;
    VisitGrows(ip, acc, i);
    VisitMonotone(ip, acc, i + 1, j + 1);
    if i < j && !HitOn(src, table, tt, hash, ip, acc, i) {
      hide Visit;
      FirstHitIsFirst(src, table, tt, hash, ip, acc, i + 1, j);
    }
  }

  lemma {:induction false} VisitMonotone(ip: nat, acc: nat, i: nat, j: nat)
    requires acc >= 1 && i <= j
    ensures Visit(ip, acc, i) <= Visit(ip, acc, j)
    decreases j
  {
    if i < j {
      VisitMonotone(ip, acc, i, j - 1);
      VisitGrows(ip, acc, j - 1);
    }
  }

  /** Where a search stops: at `p`, with candidate `m`, and the table it leaves. */
  datatype Stop = Stop(p: nat, m: nat, table: seq<nat>)

  function StopAt(src: Bytes, table: seq<nat>, tt: TableType, hash: Bytes -> nat, p: nat): Stop
    requires p + 8 <= |src| && HashFits(hash, |table|)
  {
    Stop(p, Candidate(src, table, tt, hash, p), Remember(src, table, tt, hash, p))
  }

  function Searched(src: Bytes, table: seq<nat>, tt: TableType, hash: Bytes -> nat, ip: nat, acc: nat): Option<Stop>
    requires HashFits(hash, |table|) && acc >= 1 && ip + (MFLIMIT - 1) <= |src|
  {
    match FirstHit(src, table, tt, hash, ip, acc, 0)
    case None => None
    case Some(i) =>
      FirstHitHits(src, table, tt, hash, ip, acc, 0);
      VisitGrows(ip, acc, i);
      Some(StopAt(src, Filled(src, table, tt, hash, ip, acc, i), tt, hash, Visit(ip, acc, i)))
  }

  /** What a search needs to go on with the match it found. */
  lemma StopFacts(src: Bytes, table: seq<nat>, tt: TableType, hash: Bytes -> nat, ip: nat, acc: nat)
    requires Ready(src, table, tt, hash, acc, ip) && ip + (MFLIMIT - 1) <= |src|
    requires Searched(src, table, tt, hash, ip, acc).Some?
    ensures var s := Searched(src, table, tt, hash, ip, acc).value;
      && ip <= s.p && s.p + MFLIMIT <= |src| && s.m < s.p <= s.m + DISTANCE_MAX
      && src[s.m..s.m + MINMATCH] == src[s.p..s.p + MINMATCH]
      && |s.table| == |table| && Below(s.table, s.p + 1)
  {
    FirstHitHits(src, table, tt, hash, ip, acc, 0);
    var i := FirstHit(src, table, tt, hash, ip, acc, 0).value;
    VisitMonotone(ip, acc, 0, i);
    VisitGrows(ip, acc, i);
    FilledBelow(src, table, tt, hash, ip, acc, i);
    hide FirstHit, Filled, Visit, Window;
  }

  /** A search that ends at `s` hands on a match, moved back as far as it goes. */
  ghost predicate HandsOn(src: Bytes, tt: TableType, hash: Bytes -> nat, acc: nat, ip: nat, anchor: nat, s: Stop) {
    && ip <= s.p && s.m < s.p && s.p + MFLIMIT <= |src|
    && var k := Backed(src, anchor, s.p, s.m);
    && k <= s.m && k <= s.p && Ready(src, s.table, tt, hash, acc, s.p + 1)
    && Matching(src, anchor, s.p - k, s.m - k, s.p)
  }

  lemma StopHandsOn(src: Bytes, table: seq<nat>, tt: TableType, hash: Bytes -> nat, acc: nat, ip: nat, anchor: nat)
    requires Ready(src, table, tt, hash, acc, ip) && ip + (MFLIMIT - 1) <= |src| && anchor <= ip
    requires Searched(src, table, tt, hash, ip, acc).Some?
    ensures HandsOn(src, tt, hash, acc, ip, anchor, Searched(src, table, tt, hash, ip, acc).value)
  {
    var s := Searched(src, table, tt, hash, ip, acc).value;
    StopFacts(src, table, tt, hash, ip, acc);
    BackedAgrees(src, anchor, s.p, s.m, MINMATCH);
    hide Searched, Backed, HashFits, Below;
  }

  /** From a search at `ip` on, with the literals since `anchor` and the sequences `qs` behind it. */
  function Search(src: Bytes, table: seq<nat>, tt: TableType, hash: Bytes -> nat, acc: nat, ip: nat, anchor: nat,
                  qs: seq<Seqn>): Found
    requires Ready(src, table, tt, hash, acc, ip) && ip + (MFLIMIT - 1) <= |src| && anchor <= ip
    decreases |src| - ip, 2
  {
    hide Searched, Backed, HashFits, Below, Matching;
    match Searched(src, table, tt, hash, ip, acc)
    case None => Found(qs, anchor)
    case Some(s) =>
      StopHandsOn(src, table, tt, hash, acc, ip, anchor);
      FromStop(src, tt, hash, acc, ip, anchor, s, qs)
  }

  /** From the match that a search found on. */
  function FromStop(src: Bytes, tt: TableType, hash: Bytes -> nat, acc: nat, ghost ip: nat, anchor: nat, s: Stop,
                    qs: seq<Seqn>): Found
    requires HandsOn(src, tt, hash, acc, ip, anchor, s)
    decreases |src| - s.p, 1
  {
    var k := Backed(src, anchor, s.p, s.m);
    Matches(src, s.table, tt, hash, acc, anchor, s.p - k, s.m - k, s.p, qs)
  }

  /** What is given of a match: `known` is where its first equal bytes were found, before it was moved back. */
  ghost predicate Matching(src: Bytes, anchor: nat, ip: nat, m: nat, known: nat) {
    && anchor <= ip <= known && m < ip <= m + DISTANCE_MAX && known + MFLIMIT <= |src|
    && src[m..m + (known - ip) + MINMATCH] == src[ip..known + MINMATCH]
  }

  /** From a match on: its sequence, and what follows. */
  function Matches(src: Bytes, table: seq<nat>, tt: TableType, hash: Bytes -> nat, acc: nat, anchor: nat, ip: nat,
                   m: nat, known: nat, qs: seq<Seqn>): Found
    requires Ready(src, table, tt, hash, acc, known + 1) && Matching(src, anchor, ip, m, known)
    decreases |src| - known, 0
  {
    ReachesKnown(src, ip, m, known);
    var len := MatchLen(src, ip, m);
    AfterMatch(src, table, tt, hash, acc, ip + len, qs + [Seqn(src[anchor..ip], ip - m, len)])
  }

  /**
   After a match that ends at `end`: nothing near the end of the input, the next match right here, or
   another search.
   */
  function AfterMatch(src: Bytes, table: seq<nat>, tt: TableType, hash: Bytes -> nat, acc: nat, end: nat,
                      qs: seq<Seqn>): Found
    requires Ready(src, table, tt, hash, acc, end) && 2 <= end && end + LASTLITERALS <= |src|
    decreases |src| - end, 3
  {
    hide Window;
    if end + (MFLIMIT - 1) >= |src| then Found(qs, end)
    else
      var t := Remember(src, table, tt, hash, end - 2);
      var t' := Remember(src, t, tt, hash, end);
      if Hit(src, t, tt, hash, end)
      then Matches(src, t', tt, hash, acc, end, end, Candidate(src, t, tt, hash, end), end, qs)
      else Search(src, t', tt, hash, acc, end + 1, end, qs)
  }

  /** The whole input, from an empty table that remembers its first position. */
  function FoundIn(src: Bytes, hash: Bytes -> nat, acc: nat): Found
    requires |src| <= MAX_INPUT_SIZE && HashFits(hash, TableSize(TableFor(|src|))) && acc >= 1
  {
    if |src| < MIN_LENGTH then Found([], 0)
    else Search(src, FirstTable(src, hash), TableFor(|src|), hash, acc, 1, 0, [])
  }

  function FirstTable(src: Bytes, hash: Bytes -> nat): seq<nat>
    requires 8 <= |src| && HashFits(hash, TableSize(TableFor(|src|)))
  {
    Remember(src, seq(TableSize(TableFor(|src|)), _ => 0), TableFor(|src|), hash, 0)
  }

  // ---------- one step of the parse ----------

  /** What follows a search, as `Search` has it. */
  lemma SearchTurns(src: Bytes, table: seq<nat>, tt: TableType, hash: Bytes -> nat, acc: nat, ip: nat, anchor: nat,
                    qs: seq<Seqn>, s: Stop)
    requires Ready(src, table, tt, hash, acc, ip) && ip + (MFLIMIT - 1) <= |src| && anchor <= ip
    requires Searched(src, table, tt, hash, ip, acc) == Some(s)
    ensures HandsOn(src, tt, hash, acc, ip, anchor, s)
    ensures Search(src, table, tt, hash, acc, ip, anchor, qs) == FromStop(src, tt, hash, acc, ip, anchor, s, qs)
  {
    StopHandsOn(src, table, tt, hash, acc, ip, anchor);
    hide Searched, FromStop, HandsOn, HashFits, Below;
  }

  /** What follows a match, as `Matches` has it, */
  lemma MatchesTurn(src: Bytes, table: seq<nat>, tt: TableType, hash: Bytes -> nat, acc: nat, anchor: nat, ip: nat,
                    m: nat, known: nat, qs: seq<Seqn>)
    requires Ready(src, table, tt, hash, acc, known + 1) && Matching(src, anchor, ip, m, known)
    ensures anchor <= ip && m < ip && ip + MFLIMIT <= |src|
    ensures var f := Matches(src, table, tt, hash, acc, anchor, ip, m, known, qs);
      var end, qs' := ip + MatchLen(src, ip, m), qs + [Seqn(src[anchor..ip], ip - m, MatchLen(src, ip, m))];
      && known + MINMATCH <= end && end + LASTLITERALS <= |src| && Ready(src, table, tt, hash, acc, end)
      && f == AfterMatch(src, table, tt, hash, acc, end, qs')
  {
    ReachesKnown(src, ip, m, known);
    hide AfterMatch, MatchLen, HashFits;
  }

  /** and as `AfterMatch` has it. */
  lemma AfterTurn(src: Bytes, table: seq<nat>, tt: TableType, hash: Bytes -> nat, acc: nat, end: nat, qs: seq<Seqn>)
    requires Ready(src, table, tt, hash, acc, end) && 2 <= end && end + LASTLITERALS <= |src|
    ensures var f := AfterMatch(src, table, tt, hash, acc, end, qs);
      if end + (MFLIMIT - 1) >= |src| then f == Found(qs, end)
      else
        var t := Remember(src, table, tt, hash, end - 2);
        var t' := Remember(src, t, tt, hash, end);
        && Ready(src, t', tt, hash, acc, end + 1)
        && (if Hit(src, t, tt, hash, end) then
              && Matching(src, end, end, Candidate(src, t, tt, hash, end), end)
              && f == Matches(src, t', tt, hash, acc, end, end, Candidate(src, t, tt, hash, end), end, qs)
            else f == Search(src, t', tt, hash, acc, end + 1, end, qs))
  {
    hide Matches, Search, Window, HashFits;
  }

  // ---------- what is found is the input ----------

  /** The sequences so far decode to the input before `anchor`, and leave room for the last literals. */
  ghost predicate Progress(src: Bytes, qs: seq<Seqn>, anchor: nat) {
    && anchor <= |src| && AllOk(qs) && Played(qs) == Some(src[..anchor])
    && (qs != [] ==> anchor + LASTLITERALS <= |src| && anchor + MFLIMIT <= |src| + qs[|qs| - 1].matchLen)
  }

  lemma ProgressOk(src: Bytes, qs: seq<Seqn>, anchor: nat)
    requires Progress(src, qs, anchor)
    ensures AllOk(qs) && anchor <= |src|
  {
  }

  lemma ProgressStep(src: Bytes, qs: seq<Seqn>, anchor: nat, ip: nat, match_: nat, matchLen: nat)
    requires Progress(src, qs, anchor) && |src| <= MAX_INPUT_SIZE
    requires anchor <= ip && match_ < ip <= match_ + DISTANCE_MAX && ip + MFLIMIT <= |src|
    requires MINMATCH <= matchLen && ip + matchLen + LASTLITERALS <= |src|
    requires Lz4Copy.Periodic(src, ip, ip + matchLen, ip - match_)
    ensures var qs' := qs + [Seqn(src[anchor..ip], ip - match_, matchLen)];
      && Progress(src, qs', ip + matchLen)
      && Written(qs') == Written(qs) + SequenceBytes(src[anchor..ip], ip - match_, matchLen)
  {
    hide SequenceBytes, Lz4Copy.Periodic, Written, Played;
    WrittenMore(qs, Seqn(src[anchor..ip], ip - match_, matchLen));
    PlayedMore(src, qs, anchor, ip, match_, matchLen);
  }

  lemma PlayedMore(src: Bytes, qs: seq<Seqn>, anchor: nat, ip: nat, match_: nat, matchLen: nat)
    requires AllOk(qs) && anchor <= ip && match_ < ip <= match_ + DISTANCE_MAX
    requires ip + matchLen <= |src| <= MAX_INPUT_SIZE
    requires Played(qs) == Some(src[..anchor]) && MINMATCH <= matchLen
    requires Lz4Copy.Periodic(src, ip, ip + matchLen, ip - match_)
    ensures Played(qs + [Seqn(src[anchor..ip], ip - match_, matchLen)]) == Some(src[..ip + matchLen])
  {
    hide SequenceBytes, Lz4Copy.Periodic, CopyMatch, Written, Played;
    Halves(src, anchor, ip);
    WrittenMore(qs, Seqn(src[anchor..ip], ip - match_, matchLen));
    Lz4Copy.PeriodicIsCopy(src, ip, ip + matchLen, ip - match_);
  }

  lemma Halves(s: Bytes, a: nat, b: nat)
    requires a <= b <= |s|
    ensures s[..a] + s[a..b] == s[..b]
  {
  }

  lemma WrittenMore(qs: seq<Seqn>, q: Seqn)
    requires AllOk(qs) && SeqnOk(q)
    ensures AllOk(qs + [q]) && Written(qs + [q]) == Written(qs) + SequenceBytes(q.literals, q.offset, q.matchLen)
    ensures Played(qs).Some? && 0 < q.offset <= |Played(qs).value + q.literals| ==>
      Played(qs + [q]) == Some(CopyMatch(Played(qs).value + q.literals, q.offset, q.matchLen))
  {
    hide SequenceBytes, CopyMatch;
    assert (qs + [q])[..|qs + [q]| - 1] == qs;
  }

  /** The bytes of a conformant block that decodes to `src`. */
  ghost predicate IsBlockOf(out: Bytes, src: Bytes) {
    exists b :: Encodable(b) && Conformant(b) && Expand(b, []) == Some(src) && out == Serialize(b)
  }

  lemma ProgressEnds(src: Bytes, qs: seq<Seqn>, anchor: nat)
    requires Progress(src, qs, anchor) && |src| <= MAX_INPUT_SIZE
    ensures IsBlockOf(Written(qs) + LastBytes(src[anchor..]), src)
  {
    hide LastBytes;
    var l := src[anchor..];
    AssembleWritten(qs, Last(l));
    AssemblePlayed(qs, Last(l));
    AssembleConformant(qs, Last(l));
    assert src[..anchor] + l == src;
    assert Serialize(Last(l)) == LastBytes(l);
  }

  lemma Start(src: Bytes)
    ensures Progress(src, [], 0) && Written([]) == []
  {
  }

  lemma PrefixGrows(a: seq<Seqn>, q: Seqn, b: seq<Seqn>)
    requires a + [q] <= b
    ensures a <= b
  {
    assert a == (a + [q])[..|a|] == b[..|a|];
  }

  /** Searching on keeps what is found a parse of the input, and what was found before. */
  lemma {:induction false} SearchOk(src: Bytes, table: seq<nat>, tt: TableType, hash: Bytes -> nat, acc: nat, ip: nat,
                                    anchor: nat, qs: seq<Seqn>)
    requires Ready(src, table, tt, hash, acc, ip) && ip + (MFLIMIT - 1) <= |src| && anchor <= ip
    requires Progress(src, qs, anchor)
    ensures var r := Search(src, table, tt, hash, acc, ip, anchor, qs);
      Progress(src, r.qs, r.anchor) && qs <= r.qs && r.anchor + LASTLITERALS <= |src|
    decreases |src| - ip, 2
  {
    hide Searched, Progress, FromStop, HashFits, Below, Backed, Matching;
    var r := Searched(src, table, tt, hash, ip, acc);
    if r.Some? {
      StopHandsOn(src, table, tt, hash, acc, ip, anchor);
      FromStopOk(src, tt, hash, acc, ip, anchor, r.value, qs);
    }
  }

  lemma {:induction false} FromStopOk(src: Bytes, tt: TableType, hash: Bytes -> nat, acc: nat, ip: nat, anchor: nat,
                                      s: Stop, qs: seq<Seqn>)
    requires HandsOn(src, tt, hash, acc, ip, anchor, s) && Progress(src, qs, anchor)
    ensures var r, k := FromStop(src, tt, hash, acc, ip, anchor, s, qs), Backed(src, anchor, s.p, s.m);
      && Progress(src, r.qs, r.anchor) && qs <= r.qs && r.anchor + LASTLITERALS <= |src|
      && qs + [Seqn(src[anchor..s.p - k], s.p - s.m, MatchLen(src, s.p - k, s.m - k))] <= r.qs
    decreases |src| - s.p, 1
  {
    hide Backed, Progress, Matches, MatchLen, HashFits, Below;
    var k := Backed(src, anchor, s.p, s.m);
    MatchesOk(src, s.table, tt, hash, acc, anchor, s.p - k, s.m - k, s.p, qs);
    PrefixGrows(qs, Seqn(src[anchor..s.p - k], s.p - s.m, MatchLen(src, s.p - k, s.m - k)),
                FromStop(src, tt, hash, acc, ip, anchor, s, qs).qs);
  }

  lemma {:induction false} MatchesOk(src: Bytes, table: seq<nat>, tt: TableType, hash: Bytes -> nat, acc: nat,
                                     anchor: nat, ip: nat, m: nat, known: nat, qs: seq<Seqn>)
    requires Ready(src, table, tt, hash, acc, known + 1) && Matching(src, anchor, ip, m, known)
    requires Progress(src, qs, anchor)
    ensures var r := Matches(src, table, tt, hash, acc, anchor, ip, m, known, qs);
      && Progress(src, r.qs, r.anchor) && r.anchor + LASTLITERALS <= |src|
      && qs + [Seqn(src[anchor..ip], ip - m, MatchLen(src, ip, m))] <= r.qs
    decreases |src| - known, 0
  {
    hide Progress, MatchLen, AfterMatch;
    ReachesKnown(src, ip, m, known);
    var len := MatchLen(src, ip, m);
    MatchPeriodic(src, ip, m, known);
    ProgressStep(src, qs, anchor, ip, m, len);
    AfterMatchOk(src, table, tt, hash, acc, ip + len, qs + [Seqn(src[anchor..ip], ip - m, len)]);
  }

  lemma {:induction false} AfterMatchOk(src: Bytes, table: seq<nat>, tt: TableType, hash: Bytes -> nat, acc: nat,
                                        end: nat, qs: seq<Seqn>)
    requires Ready(src, table, tt, hash, acc, end) && 2 <= end && end + LASTLITERALS <= |src|
    requires Progress(src, qs, end)
    ensures var r := AfterMatch(src, table, tt, hash, acc, end, qs);
      Progress(src, r.qs, r.anchor) && r.anchor + LASTLITERALS <= |src| && qs <= r.qs
    decreases |src| - end, 3
  {
    hide Progress, Window, MatchLen, Matches, Search;
    if end + (MFLIMIT - 1) < |src| {
      var t := Remember(src, table, tt, hash, end - 2);
      var t' := Remember(src, t, tt, hash, end);
      if Hit(src, t, tt, hash, end) {
        var m := Candidate(src, t, tt, hash, end);
        MatchesOk(src, t', tt, hash, acc, end, end, m, end, qs);
        PrefixGrows(qs, Seqn(src[end..end], end - m, MatchLen(src, end, m)),
                    Matches(src, t', tt, hash, acc, end, end, m, end, qs).qs);
      } else {
        SearchOk(src, t', tt, hash, acc, end + 1, end, qs);
      }
    }
  }

  lemma FirstFour(s: Bytes, ip: nat, m: nat, known: nat)
    requires m < ip <= known && known + MINMATCH <= |s|
    requires s[m..m + (known - ip) + MINMATCH] == s[ip..known + MINMATCH]
    ensures s[m..m + MINMATCH] == s[ip..ip + MINMATCH]
  {
    assert s[m..m + MINMATCH] == s[m..m + (known - ip) + MINMATCH][..MINMATCH];
    assert s[ip..ip + MINMATCH] == s[ip..known + MINMATCH][..MINMATCH];
  }

  lemma MatchPeriodic(src: Bytes, ip: nat, m: nat, known: nat)
    requires m < ip <= known && known + MFLIMIT <= |src|
    requires src[m..m + (known - ip) + MINMATCH] == src[ip..known + MINMATCH]
    ensures Lz4Copy.Periodic(src, ip, ip + MatchLen(src, ip, m), ip - m)
  {
    FirstFour(src, ip, m, known);
    Matched(src, ip, m, |src| - LASTLITERALS);
  }

  lemma FoundInOk(src: Bytes, hash: Bytes -> nat, acc: nat)
    requires |src| <= MAX_INPUT_SIZE && HashFits(hash, TableSize(TableFor(|src|))) && acc >= 1
    ensures var r := FoundIn(src, hash, acc); Progress(src, r.qs, r.anchor)
    ensures var r := FoundIn(src, hash, acc); AllOk(r.qs) && r.anchor <= |src|
  {
    Start(src);
    if |src| >= MIN_LENGTH {
      hide Progress, Search, Window;
      SearchOk(src, FirstTable(src, hash), TableFor(|src|), hash, acc, 1, 0, []);
    }
    ProgressOk(src, FoundIn(src, hash, acc).qs, FoundIn(src, hash, acc).anchor);
  }

  lemma {:induction false} WrittenPrefix(a: seq<Seqn>, b: seq<Seqn>)
    requires AllOk(b) && a <= b
    ensures AllOk(a) && |Written(a)| <= |Written(b)|
    decreases |b|
  {
    hide SequenceBytes;
    assert forall i :: 0 <= i < |a| ==> a[i] == b[i];
    if |a| < |b| {
      WrittenPrefix(a, b[..|b| - 1]);
    } else {
      assert a == b;
    }
  }

  /** How long the output for what was found is. */
  function SizeOf(src: Bytes, f: Found): nat
    requires AllOk(f.qs) && f.anchor <= |src|
  {
    |Written(f.qs)| + |LastBytes(src[f.anchor..])|
  }

  /** With at least 5 literals to come, the output is at least 6 bytes longer than what is written so far. */
  lemma SizeAtLeast(src: Bytes, f: Found, qs: seq<Seqn>)
    requires AllOk(f.qs) && f.anchor + LASTLITERALS <= |src| && qs <= f.qs
    ensures AllOk(qs) && SizeOf(src, f) >= |Written(qs)| + 1 + LASTLITERALS
  {
    WrittenPrefix(qs, f.qs);
  }

  /** The bytes that the compressor writes for an input. */
  function BlockBytes(src: Bytes, hash: Bytes -> nat, acc: nat): (out: Bytes)
    requires |src| <= MAX_INPUT_SIZE && HashFits(hash, TableSize(TableFor(|src|))) && acc >= 1
  {
    FoundInOk(src, hash, acc);
    var r := FoundIn(src, hash, acc);
    Written(r.qs) + LastBytes(src[r.anchor..])
  }

  /** Whatever the hash and the acceleration, they are a conformant block of the input. */
  lemma BytesAreBlock(src: Bytes, hash: Bytes -> nat, acc: nat)
    requires |src| <= MAX_INPUT_SIZE && HashFits(hash, TableSize(TableFor(|src|))) && acc >= 1
    ensures IsBlockOf(BlockBytes(src, hash, acc), src)
  {
    FoundInOk(src, hash, acc);
    ProgressEnds(src, FoundIn(src, hash, acc).qs, FoundIn(src, hash, acc).anchor);
  }
}
