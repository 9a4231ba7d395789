/**
 What the compressor makes of inputs whose repetitions are known: the matches must be found for these sizes to
 hold, whatever the hash function.
 */
module Lz4Gain {
  import opened Values
  import opened Wrappers
  import opened Lz4Format
  import opened Lz4Greedy
  import Lz4Count
  import Lz4Compress

  /** In `[lo, hi)` every byte is `b`. */
  ghost predicate Fill(s: Bytes, lo: nat, hi: nat, b: Byte) {
    lo <= hi <= |s| && forall k :: lo <= k < hi ==> s[k] == b
  }

  lemma FillSlice(s: Bytes, lo: nat, hi: nat, b: Byte, i: nat, j: nat, n: nat)
    requires Fill(s, lo, hi, b) && lo <= i && lo <= j && i + n <= hi && j + n <= hi
    ensures s[i..i + n] == s[j..j + n]
  {
  }

  lemma {:induction false} FillPrefix(s: Bytes, lo: nat, hi: nat, b: Byte, a: nat, limit: nat)
    requires Fill(s, lo, hi, b) && lo < a <= hi && a <= limit <= |s| && (hi < |s| ==> s[hi] != b)
    ensures Lz4Count.CommonPrefix(s, a, a - 1, limit) == (if hi < limit then hi else limit) - a
    decreases limit - a
  {
    if a < limit && a < hi { FillPrefix(s, lo, hi, b, a + 1, limit); }
  }

  // ---------- the search finds a repeated byte ----------

  /** A search whose first position has its predecessor in the table, within a run of one byte, stops there. */
  lemma StopsInFill(src: Bytes, table: seq<nat>, tt: TableType, hash: Bytes -> nat, acc: nat, ip: nat, lo: nat, hi: nat,
                    b: Byte)
    requires Ready(src, table, tt, hash, acc, ip) && ip + MFLIMIT <= |src| && lo < ip
    requires Fill(src, lo, hi, b) && ip + 8 <= hi
    requires table[hash(Window(src, ip - 1, tt))] == ip - 1
    ensures Searched(src, table, tt, hash, ip, acc) == Some(Stop(ip, ip - 1, Remember(src, table, tt, hash, ip)))
  {
    FillSlice(src, lo, hi, b, ip - 1, ip, 8);
    FillSlice(src, lo, hi, b, ip - 1, ip, 4);
    assert Window(src, ip - 1, tt) == Window(src, ip, tt);
    assert Visit(ip, acc, 0) == ip && Visit(ip, acc, 1) == ip + 1;
    assert Filled(src, table, tt, hash, ip, acc, 0) == table;
    hide Window, Visit, Filled;
  }

  /** A match of a search that is not moved back. */
  lemma StopUnmoved(src: Bytes, tt: TableType, hash: Bytes -> nat, acc: nat, ip: nat, anchor: nat, qs: seq<Seqn>,
                    s: Stop)
    requires HandsOn(src, tt, hash, acc, ip, anchor, s) && Backed(src, anchor, s.p, s.m) == 0
    ensures var end := s.p + MatchLen(src, s.p, s.m);
      && anchor <= s.p && Ready(src, s.table, tt, hash, acc, end) && 2 <= end && end + LASTLITERALS <= |src|
      && FromStop(src, tt, hash, acc, ip, anchor, s, qs)
         == AfterMatch(src, s.table, tt, hash, acc, end, qs + [Seqn(src[anchor..s.p], s.p - s.m, end - s.p)])
  {
    MatchesTurn(src, s.table, tt, hash, acc, anchor, s.p, s.m, s.p, qs);
    hide Backed, HashFits, Below, Matches, MatchLen, AfterMatch, Matching;
    assert FromStop(src, tt, hash, acc, ip, anchor, s, qs)
        == Matches(src, s.table, tt, hash, acc, anchor, s.p, s.m, s.p, qs);
  }

  lemma Unmoved(src: Bytes, table: seq<nat>, tt: TableType, hash: Bytes -> nat, acc: nat, ip: nat, anchor: nat,
                qs: seq<Seqn>, s: Stop, len: nat)
    requires Ready(src, table, tt, hash, acc, ip) && ip + (MFLIMIT - 1) <= |src| && anchor <= ip
    requires Searched(src, table, tt, hash, ip, acc) == Some(s) && s.m < s.p && s.p + MFLIMIT <= |src|
    requires Backed(src, anchor, s.p, s.m) == 0 && MatchLen(src, s.p, s.m) == len && anchor <= s.p
    ensures Ready(src, s.table, tt, hash, acc, s.p + len) && 2 <= s.p + len && s.p + len + LASTLITERALS <= |src|
    ensures Search(src, table, tt, hash, acc, ip, anchor, qs)
      == AfterMatch(src, s.table, tt, hash, acc, s.p + len, qs + [Seqn(src[anchor..s.p], s.p - s.m, len)])
  {
    hide Searched, Backed, HashFits, Below, Search, Matches, MatchLen, AfterMatch, FromStop, HandsOn;
    SearchTurns(src, table, tt, hash, acc, ip, anchor, qs, s);
    StopUnmoved(src, tt, hash, acc, ip, anchor, qs, s);
  }

  // ---------- one run ----------

  /** A run of one byte is one literal, one match at offset 1, and the last 5 literals. */
  lemma RunIsFound(src: Bytes, hash: Bytes -> nat, acc: nat, b: Byte)
    requires MIN_LENGTH <= |src| <= MAX_INPUT_SIZE && Fill(src, 0, |src|, b)
    requires HashFits(hash, TableSize(TableFor(|src|))) && acc >= 1
    ensures FoundIn(src, hash, acc) == Found([Seqn([b], 1, |src| - 6)], |src| - LASTLITERALS)
  {
    var tt, t := TableFor(|src|), FirstTable(src, hash);
    StopsInFill(src, t, tt, hash, acc, 1, 0, |src|, b);
    FillPrefix(src, 0, |src|, b, 1 + MINMATCH, |src| - LASTLITERALS);
    assert src[0..1] == [b];
    hide Searched, Window, Lz4Count.CommonPrefix, Search, HashFits;
    assert Backed(src, 0, 1, 0) == 0;
    assert [] + [Seqn([b], 1, |src| - 6)] == [Seqn([b], 1, |src| - 6)];
    Unmoved(src, t, tt, hash, acc, 1, 0, [], Stop(1, 0, Remember(src, t, tt, hash, 1)), |src| - 6);
  }

  lemma OneSequence(q: Seqn)
    requires SeqnOk(q)
    ensures AllOk([q]) && Written([q]) == SequenceBytes(q.literals, q.offset, q.matchLen)
  {
    hide SequenceBytes;
    assert [q][..0] == [] && Written([]) == [];
  }

  /** Hence, for every hash and every acceleration, the exact size of a compressed run. */
  lemma RunSize(src: Bytes, hash: Bytes -> nat, acc: nat, b: Byte)
    requires MIN_LENGTH <= |src| <= MAX_INPUT_SIZE && Fill(src, 0, |src|, b)
    requires HashFits(hash, TableSize(TableFor(|src|))) && acc >= 1
    ensures |BlockBytes(src, hash, acc)| == 10 + (|src| + 230) / 255
  {
    RunIsFound(src, hash, acc, b);
    var q := Seqn([b], 1, |src| - 6);
    OneSequence(q);
    Lz4Compress.SequenceSize([b], 1, |src| - 10);
    FiveLast(src, |src| - LASTLITERALS);
    hide FoundIn, SequenceBytes, LastBytes, Written;
  }

  lemma FiveLast(src: Bytes, anchor: nat)
    requires anchor + LASTLITERALS == |src|
    ensures |LastBytes(src[anchor..])| == 6
  {
  }

  /** LZ4_compress_default on a run of n bytes, with an output of the bound's size. */
  method CompressRun(src: Bytes, dst: array<Byte>, hash: Bytes -> nat, b: Byte) returns (r: nat)
    requires MIN_LENGTH <= |src| <= MAX_INPUT_SIZE && Fill(src, 0, |src|, b)
    requires HashFits(hash, TableSize(TableFor(|src|))) && dst.Length == Lz4Compress.CompressBound(|src|)
    modifies dst
    ensures r == 10 + (|src| + 230) / 255
  {
    RunSize(src, hash, 1, b);
    hide BlockBytes;
    r := Lz4Compress.CompressDefault(src, dst, hash, dst.Length);
  }

  // ---------- two runs ----------

  /**
   A run of another byte behind it is found too: what follows the first match is one literal, which the table
   remembers, and one more match at offset 1.
   */
  lemma TwoRunsAreFound(src: Bytes, hash: Bytes -> nat, acc: nat, a: Byte, k: nat, b: Byte)
    requires 9 <= k && k + MIN_LENGTH <= |src| <= MAX_INPUT_SIZE && a != b
    requires Fill(src, 0, k, a) && Fill(src, k, |src|, b)
    requires HashFits(hash, TableSize(TableFor(|src|))) && acc >= 1
    ensures FoundIn(src, hash, acc) ==
      Found([Seqn([a], 1, k - 1), Seqn([b], 1, |src| - k - 6)], |src| - LASTLITERALS)
  {
    var tt, t := TableFor(|src|), FirstTable(src, hash);
    StopsInFill(src, t, tt, hash, acc, 1, 0, k, a);
    MatchAtStart(src, k, a);
    var qs, t1 := [Seqn([a], 1, k - 1)], Remember(src, t, tt, hash, 1);
    assert [] + [Seqn([a], 1, k - 1)] == qs;
    SecondRun(src, hash, acc, tt, t1, a, k, b, qs);
    hide Searched, Window, Lz4Count.CommonPrefix, AfterMatch, Search, HashFits, Remember;
    hide MatchLen, Backed, Fill;
    Unmoved(src, t, tt, hash, acc, 1, 0, [], Stop(1, 0, t1), k - 1);
    assert qs + [Seqn([b], 1, |src| - k - 6)] == [Seqn([a], 1, k - 1), Seqn([b], 1, |src| - k - 6)];
  }

  lemma MatchAtStart(src: Bytes, k: nat, a: Byte)
    requires 9 <= k && k + MIN_LENGTH <= |src| && Fill(src, 0, k, a) && src[k] != a
    ensures src[0..1] == [a] && Backed(src, 0, 1, 0) == 0 && MatchLen(src, 1, 0) == k - 1
  {
    FillPrefix(src, 0, k, a, 1 + MINMATCH, |src| - LASTLITERALS);
  }

  lemma SecondRun(src: Bytes, hash: Bytes -> nat, acc: nat, tt: TableType, table: seq<nat>, a: Byte, k: nat, b: Byte,
                  qs: seq<Seqn>)
    requires 9 <= k && k + MIN_LENGTH <= |src| && a != b && Fill(src, 0, k, a) && Fill(src, k, |src|, b)
    requires Ready(src, table, tt, hash, acc, k)
    ensures AfterMatch(src, table, tt, hash, acc, k, qs) ==
      Found(qs + [Seqn([b], 1, |src| - k - 6)], |src| - LASTLITERALS)
  {
    var t := Remember(src, table, tt, hash, k - 2);
    var t' := Remember(src, t, tt, hash, k);
    var m := Candidate(src, t, tt, hash, k);
    assert m < k && src[m..m + MINMATCH][0] == a && src[k..k + MINMATCH][0] == b;
    assert !Hit(src, t, tt, hash, k);
    assert Ready(src, t', tt, hash, acc, k + 1) && t'[hash(Window(src, k, tt))] == k;
    hide Window, Search, Matches, Hit, Candidate, Remember;
    RunInside(src, hash, acc, tt, t', k, b, qs);
  }

  /** A search that starts one byte into a run, at the literal that begins it. */
  lemma RunInside(src: Bytes, hash: Bytes -> nat, acc: nat, tt: TableType, table: seq<nat>, k: nat, b: Byte,
                  qs: seq<Seqn>)
    requires 1 <= k && k + MIN_LENGTH <= |src| && Fill(src, k, |src|, b) && src[k - 1] != b
    requires Ready(src, table, tt, hash, acc, k + 1) && table[hash(Window(src, k, tt))] == k
    ensures Search(src, table, tt, hash, acc, k + 1, k, qs) ==
      Found(qs + [Seqn([b], 1, |src| - k - 6)], |src| - LASTLITERALS)
  {
    StopsInFill(src, table, tt, hash, acc, k + 1, k, |src|, b);
    MatchInside(src, k, b);
    hide *;
    MatchToEnd(src, hash, acc, tt, table, k, b, qs, Stop(k + 1, k, Remember(src, table, tt, hash, k + 1)));
  }

  lemma MatchToEnd(src: Bytes, hash: Bytes -> nat, acc: nat, tt: TableType, table: seq<nat>, k: nat, b: Byte,
                   qs: seq<Seqn>, s: Stop)
    requires k + MIN_LENGTH <= |src| && src[k..k + 1] == [b] && s.p == k + 1 && s.m == k
    requires Ready(src, table, tt, hash, acc, k + 1) && Searched(src, table, tt, hash, k + 1, acc) == Some(s)
    requires Backed(src, k, k + 1, k) == 0 && MatchLen(src, k + 1, k) == |src| - k - 6
    ensures Search(src, table, tt, hash, acc, k + 1, k, qs) ==
      Found(qs + [Seqn([b], 1, |src| - k - 6)], |src| - LASTLITERALS)
  {
    hide Searched, Search, HashFits, Below, Backed, MatchLen;
    Unmoved(src, table, tt, hash, acc, k + 1, k, qs, s, |src| - k - 6);
  }

  lemma MatchInside(src: Bytes, k: nat, b: Byte)
    requires 1 <= k && k + MIN_LENGTH <= |src| && Fill(src, k, |src|, b) && src[k - 1] != b
    ensures src[k..k + 1] == [b] && Backed(src, k, k + 1, k) == 0 && MatchLen(src, k + 1, k) == |src| - k - 6
  {
    FillPrefix(src, k, |src|, b, k + 1 + MINMATCH, |src| - LASTLITERALS);
  }

  // ---------- nothing to find ----------

  predicate SameFour(src: Bytes, m: nat, p: nat)
    requires m <= p && p + MINMATCH <= |src|
  {
    src[m..m + MINMATCH] == src[p..p + MINMATCH]
  }

  /** No 4 bytes come again within 65535 bytes. */
  ghost predicate NoRepeat(src: Bytes) {
    forall m: nat, p: nat :: m < p <= m + DISTANCE_MAX && p + MINMATCH <= |src| ==> !SameFour(src, m, p)
  }

  /** Without a repetition everything is literals: no match is made up. */
  lemma NoRepeatIsLiteral(src: Bytes, hash: Bytes -> nat, acc: nat)
    requires |src| <= MAX_INPUT_SIZE && HashFits(hash, TableSize(TableFor(|src|))) && acc >= 1 && NoRepeat(src)
    ensures BlockBytes(src, hash, acc) == LastBytes(src)
  {
    assert src[0..] == src && Written([]) == [];
    if |src| >= MIN_LENGTH {
      NothingHit(src, FirstTable(src, hash), TableFor(|src|), hash, 1, acc);
      hide FirstHit, FirstTable, Window, LastBytes;
      assert FoundIn(src, hash, acc) == Found([], 0);
    }
  }

  lemma NothingHit(src: Bytes, table: seq<nat>, tt: TableType, hash: Bytes -> nat, ip: nat, acc: nat)
    requires HashFits(hash, |table|) && acc >= 1 && ip + (MFLIMIT - 1) <= |src| && NoRepeat(src)
    ensures FirstHit(src, table, tt, hash, ip, acc, 0) == None
  {
    FirstHitHits(src, table, tt, hash, ip, acc, 0);
    var r := FirstHit(src, table, tt, hash, ip, acc, 0);
    hide FirstHit, Filled, Visit, Window;
    if r.Some? {
      VisitGrows(ip, acc, r.value);
      NoHit(src, Filled(src, table, tt, hash, ip, acc, r.value), tt, hash, Visit(ip, acc, r.value));
    }
  }

  lemma NoHit(src: Bytes, table: seq<nat>, tt: TableType, hash: Bytes -> nat, p: nat)
    requires HashFits(hash, |table|) && p + 8 <= |src| && NoRepeat(src)
    ensures !Hit(src, table, tt, hash, p)
  {
    var m := Candidate(src, table, tt, hash, p);
    hide Candidate;
    if m < p <= m + DISTANCE_MAX { assert !SameFour(src, m, p); }
  }

  // ---------- how the steps of a search grow ----------

  /**
   At acceleration 1 the first 66 positions are one after the other, and the next is two further on. At
   another acceleration the second step is already as long as that.
   */
  lemma {:induction false} StepsGrow(ip: nat, acc: nat, i: nat)
    requires i <= 65
    ensures Visit(ip, 1, i) == ip + i && (i == 65 ==> Visit(ip, 1, 66) == ip + 67)
    ensures Visit(ip, acc, 1) == ip + 1 && Visit(ip, acc, 2) == ip + 1 + acc
  {
    if i > 0 { StepsGrow(ip, acc, i - 1); }
  }

  // ---------- what a match leaves in the table ----------

  /** What comes again 3 bytes on, around the end of a match, is found: the table has the position 2 before the end. */
  lemma FoundAroundEnd(src: Bytes, table: seq<nat>, tt: TableType, hash: Bytes -> nat, acc: nat, end: nat,
                       qs: seq<Seqn>)
    requires Ready(src, table, tt, hash, acc, end) && 2 <= end && end + MFLIMIT < |src|
    requires src[end - 2..end + 6] == src[end + 1..end + 9]
    requires hash(Window(src, end, tt)) != hash(Window(src, end + 1, tt))
    requires !Hit(src, Remember(src, table, tt, hash, end - 2), tt, hash, end)
    ensures var s := AfterStop(src, table, tt, hash, end);
      && s.p == end + 1 && s.m == end - 2 && HandsOn(src, tt, hash, acc, end + 1, end, s)
      && AfterMatch(src, table, tt, hash, acc, end, qs) == FromStop(src, tt, hash, acc, end + 1, end, s, qs)
  {
    var t := Remember(src, table, tt, hash, end - 2);
    var t' := Remember(src, t, tt, hash, end);
    SameWindow(src, end - 2, end + 1, tt);
    assert Candidate(src, t', tt, hash, end + 1) == end - 2;
    StopsHere(src, t', tt, hash, end + 1, acc);
    hide Hit, Window, Searched, Search, FromStop, HandsOn, Matches;
    SearchTurns(src, t', tt, hash, acc, end + 1, end, qs, StopAt(src, t', tt, hash, end + 1));
  }

  function AfterStop(src: Bytes, table: seq<nat>, tt: TableType, hash: Bytes -> nat, end: nat): Stop
    requires 2 <= end && end + 9 <= |src| && HashFits(hash, |table|)
  {
    var t := Remember(src, Remember(src, table, tt, hash, end - 2), tt, hash, end);
    StopAt(src, t, tt, hash, end + 1)
  }

  lemma SameWindow(src: Bytes, a: nat, b: nat, tt: TableType)
    requires a <= b && b + 8 <= |src| && src[a..a + 8] == src[b..b + 8]
    ensures Window(src, a, tt) == Window(src, b, tt) && src[a..a + MINMATCH] == src[b..b + MINMATCH]
  {
    assert src[a..a + 4] == src[a..a + 8][..4] && src[b..b + 4] == src[b..b + 8][..4];
  }

  /** A search whose first position is a match ends there. */
  lemma StopsHere(src: Bytes, table: seq<nat>, tt: TableType, hash: Bytes -> nat, ip: nat, acc: nat)
    requires Ready(src, table, tt, hash, acc, ip) && ip + MFLIMIT <= |src| && Hit(src, table, tt, hash, ip)
    ensures Searched(src, table, tt, hash, ip, acc) == Some(StopAt(src, table, tt, hash, ip))
  {
    assert Visit(ip, acc, 0) == ip && Visit(ip, acc, 1) == ip + 1;
    assert Filled(src, table, tt, hash, ip, acc, 0) == table;
    hide Window, Visit, Filled, Hit;
  }

  // ---------- one input in full ----------

  /** "abcde", "pqrst", "abcd", "pqrs", and 12 other bytes. */
  const INPUT: Bytes := [97, 98, 99, 100, 101, 112, 113, 114, 115, 116, 97, 98, 99, 100, 112, 113, 114, 115,
                         1, 2, 3, 4, 5, 6, 7, 8, 9, 10, 11, 12]

  /** A hash that is the first byte. */
  function FirstByte(w: Bytes): (h: nat)
    ensures h < 256
  {
    if |w| == 0 then 0 else w[0]
  }

  /** The table holds the first `n` positions of the input, each at its byte. */
  ghost predicate Holds(t: seq<nat>, n: nat) {
    && |t| == 8192 && n <= 10 && t[1] == 0
    && forall q :: 0 <= q < 10 ==> t[INPUT[q]] == if q < n then q else 0
  }

  lemma HoldsMore(t: seq<nat>, p: nat)
    requires Holds(t, p) && p < 10
    ensures Holds(Remember(INPUT, t, ByU16, FirstByte, p), p + 1)
  {
    assert INPUT[p..p + 4][0] == INPUT[p];
    forall q, r | 0 <= q < r < 10 ensures INPUT[q] != INPUT[r] {}
  }

  lemma FirstTen(i: nat)
    requires 1 <= i <= 9
    ensures INPUT[i] != 97 && INPUT[i..i + 4] != INPUT[0..4]
  {
    assert INPUT[i..i + 4][0] == INPUT[i] != INPUT[0..4][0];
  }

  /** Position `i` is passed: its entry is still 0, and the first 4 bytes are others. */
  lemma Passes(t: seq<nat>, i: nat)
    requires Holds(t, i) && 1 <= i <= 9 && HashFits(FirstByte, |t|)
    ensures !Hit(INPUT, t, ByU16, FirstByte, i) && Holds(Remember(INPUT, t, ByU16, FirstByte, i), i + 1)
  {
    HoldsMore(t, i);
    FirstTen(i);
    assert INPUT[i..i + 4][0] == INPUT[i];
    assert t[INPUT[i]] == 0;
    assert Candidate(INPUT, t, ByU16, FirstByte, i) == 0;
  }

  /** The first ten positions are passed, */
  lemma {:induction false} SearchPasses(t: seq<nat>, i: nat)
    requires Holds(t, 1) && i <= 9 && HashFits(FirstByte, |t|)
    ensures Visit(1, 1, i) == i + 1 && Holds(Filled(INPUT, t, ByU16, FirstByte, 1, 1, i), i + 1)
    ensures FirstHit(INPUT, t, ByU16, FirstByte, 1, 1, 0) == FirstHit(INPUT, t, ByU16, FirstByte, 1, 1, i)
  {
    StepsGrow(1, 1, i);
    if i > 0 {
      SearchPasses(t, i - 1);
      StepsGrow(1, 1, i - 1);
      hide Remember, Holds, Hit, Visit, Candidate;
      Passes(Filled(INPUT, t, ByU16, FirstByte, 1, 1, i - 1), i);
    }
  }

  /** and the eleventh finds the first. */
  lemma SearchStops(t: seq<nat>)
    requires Holds(t, 1) && HashFits(FirstByte, |t|)
    ensures Visit(1, 1, 9) == 10
    ensures var u := Filled(INPUT, t, ByU16, FirstByte, 1, 1, 9);
      && Holds(u, 10)
      && Searched(INPUT, t, ByU16, FirstByte, 1, 1) == Some(Stop(10, 0, Remember(INPUT, u, ByU16, FirstByte, 10)))
  {
    SearchPasses(t, 9);
    StepsGrow(1, 1, 10);
    var u := Filled(INPUT, t, ByU16, FirstByte, 1, 1, 9);
    HitsFirst(u);
    hide Filled, Visit, Holds, Remember, Candidate, Hit, INPUT, FirstByte;
    assert |INPUT| == 30;
  }

  lemma HitsFirst(u: seq<nat>)
    requires Holds(u, 10) && HashFits(FirstByte, |u|)
    ensures Candidate(INPUT, u, ByU16, FirstByte, 10) == 0 && Hit(INPUT, u, ByU16, FirstByte, 10)
  {
    assert u[INPUT[0]] == 0;
    assert INPUT[10..14][0] == 97;
    assert Candidate(INPUT, u, ByU16, FirstByte, 10) == 0;
    assert INPUT[0..4] == INPUT[10..14];
  }

  /** The entries that the rest of the example looks at. */
  lemma Entries(u: seq<nat>)
    requires Holds(u, 10)
    ensures u[97] == 0 && u[112] == 5 && u[1] == 0
  {
    assert u[INPUT[0]] == 0 && u[INPUT[5]] == 5;
  }

  lemma ExampleStart()
    ensures HashFits(FirstByte, TableSize(TableFor(|INPUT|))) && TableFor(|INPUT|) == ByU16
    ensures var t := FirstTable(INPUT, FirstByte); Holds(t, 1) && Ready(INPUT, t, ByU16, FirstByte, 1, 1)
  {
    var t := seq(8192, _ => 0);
    assert forall q :: 0 <= q < 10 ==> t[INPUT[q]] == 0;
    HoldsMore(t, 0);
  }

  lemma SecondMatch()
    ensures INPUT[5..9] == INPUT[14..18]
  {
    Letters();
    hide INPUT;
    assert |INPUT| == 30;
  }

  lemma Letters()
    ensures |INPUT| == 30
    ensures INPUT[5] == 112 && INPUT[6] == 113 && INPUT[7] == 114 && INPUT[8] == 115
    ensures INPUT[14] == 112 && INPUT[15] == 113 && INPUT[16] == 114 && INPUT[17] == 115
  {
  }

  /** The second match stands right behind the first and is taken without a search. */
  lemma ExampleNext(u: seq<nat>, qs: seq<Seqn>)
    requires |u| == 8192 && Below(u, 14) && HashFits(FirstByte, |u|) && u[97] == 10 && u[112] == 5 && u[1] == 0
    ensures AfterMatch(INPUT, u, ByU16, FirstByte, 1, 14, qs) == Found(qs + [Seqn([], 9, 4)], 18)
  {
    var t := Remember(INPUT, u, ByU16, FirstByte, 12);
    var t' := Remember(INPUT, t, ByU16, FirstByte, 14);
    SecondMatch();
    assert INPUT[12..16][0] == 99 && INPUT[14..18][0] == 112;
    assert Candidate(INPUT, t, ByU16, FirstByte, 14) == 5;
    assert MatchLen(INPUT, 14, 5) == 4;
    assert Below(t', 15) && t'[1] == 0 && INPUT[14..14] == [];
    hide Remember, Candidate, Search, MatchLen;
    ExampleEnds(t', qs + [Seqn([], 9, 4)]);
  }

  /** Nothing follows it, and the next search is too near to the end. */
  lemma ExampleEnds(u: seq<nat>, qs: seq<Seqn>)
    requires |u| == 8192 && Below(u, 15) && HashFits(FirstByte, |u|) && u[1] == 0
    ensures AfterMatch(INPUT, u, ByU16, FirstByte, 1, 18, qs) == Found(qs, 18)
  {
    var t := Remember(INPUT, u, ByU16, FirstByte, 16);
    var t' := Remember(INPUT, t, ByU16, FirstByte, 18);
    assert INPUT[16..20][0] == 114 && INPUT[18..22][0] == 1 && INPUT[0..4][0] == 97;
    assert Candidate(INPUT, t, ByU16, FirstByte, 18) == 0;
    assert Visit(19, 1, 0) == 19 && Visit(19, 1, 1) == 20;
    hide Remember, Candidate, Matches, MatchLen;
    assert Searched(INPUT, t', ByU16, FirstByte, 19, 1) == None;
  }

  /** What is found in the input: two matches, at offsets 10 and 9, of which the second has no literals. */
  lemma ExampleFound()
    ensures HashFits(FirstByte, TableSize(TableFor(|INPUT|)))
    ensures FoundIn(INPUT, FirstByte, 1) == Found([Seqn(INPUT[..10], 10, 4), Seqn([], 9, 4)], 18)
  {
    ExampleStart();
    var t := FirstTable(INPUT, FirstByte);
    SearchStops(t);
    var u := Filled(INPUT, t, ByU16, FirstByte, 1, 1, 9);
    ExampleMatch(u);
    assert |INPUT| == 30;
    hide INPUT, Remember, Filled, Searched, AfterMatch, Backed, MatchLen, Holds, Window, FirstTable, Search, FirstByte,
      HashFits, Below;
    ExampleSearch(t, Remember(INPUT, u, ByU16, FirstByte, 10));
  }

  lemma ExampleSearch(t: seq<nat>, u: seq<nat>)
    requires Ready(INPUT, t, ByU16, FirstByte, 1, 1)
    requires Searched(INPUT, t, ByU16, FirstByte, 1, 1) == Some(Stop(10, 0, u))
    requires Backed(INPUT, 0, 10, 0) == 0 && MatchLen(INPUT, 10, 0) == 4
    requires |u| == 8192 && u[97] == 10 && u[112] == 5 && u[1] == 0
    ensures Search(INPUT, t, ByU16, FirstByte, 1, 1, 0, []) == Found([Seqn(INPUT[..10], 10, 4), Seqn([], 9, 4)], 18)
  {
    assert |INPUT| == 30;
    hide INPUT, Remember, Searched, AfterMatch, Backed, MatchLen, Window, Search, FirstByte, HashFits, Below;
    var qs := [Seqn(INPUT[..10], 10, 4)];
    Unmoved(INPUT, t, ByU16, FirstByte, 1, 1, 0, [], Stop(10, 0, u), 4);
    assert INPUT[0..10] == INPUT[..10] && [] + qs == qs;
    ExampleNext(u, qs);
    assert qs + [Seqn([], 9, 4)] == [Seqn(INPUT[..10], 10, 4), Seqn([], 9, 4)];
  }

  lemma ExampleMatch(u: seq<nat>)
    requires Holds(u, 10) && HashFits(FirstByte, |u|)
    ensures var r := Remember(INPUT, u, ByU16, FirstByte, 10); r[97] == 10 && r[112] == 5 && r[1] == 0
    ensures Backed(INPUT, 0, 10, 0) == 0 && MatchLen(INPUT, 10, 0) == 4
  {
    Entries(u);
    assert INPUT[10..14][0] == 97;
  }

  lemma TwoSequences(a: Seqn, b: Seqn)
    requires SeqnOk(a) && SeqnOk(b)
    ensures AllOk([a, b])
    ensures Written([a, b]) == SequenceBytes(a.literals, a.offset, a.matchLen)
      + SequenceBytes(b.literals, b.offset, b.matchLen)
  {
    hide SequenceBytes;
    OneSequence(a);
    assert [a, b][..1] == [a];
  }

  lemma FoundBytes(src: Bytes, x: Bytes, y: Bytes)
    requires |src| == 30 && |x| == 10 && HashFits(FirstByte, TableSize(TableFor(30))) && y == src[18..]
    requires FoundIn(src, FirstByte, 1) == Found([Seqn(x, 10, 4), Seqn([], 9, 4)], 18)
    ensures BlockBytes(src, FirstByte, 1) == SequenceBytes(x, 10, 4) + SequenceBytes([], 9, 4) + LastBytes(y)
  {
    Lz4Compress.BytesOf(src, FirstByte, 1);
    TwoSequences(Seqn(x, 10, 4), Seqn([], 9, 4));
    hide *;
  }

  /** And what is written for it. */
  lemma ExampleBytes()
    ensures HashFits(FirstByte, TableSize(TableFor(|INPUT|)))
    ensures BlockBytes(INPUT, FirstByte, 1)
      == SequenceBytes(INPUT[..10], 10, 4) + SequenceBytes([], 9, 4) + LastBytes(INPUT[18..])
  {
    ExampleFound();
    assert |INPUT| == 30;
    hide FoundIn, INPUT, BlockBytes, FirstByte, HashFits, SequenceBytes, LastBytes;
    FoundBytes(INPUT, INPUT[..10], INPUT[18..]);
  }

  /** A sequence of short lengths is its token, the literals, and the offset, low byte first. */
  lemma ShortSequence(l: Bytes, offset: Byte, token: Byte)
    requires |l| < 15 && token == 16 * |l|
    ensures SequenceBytes(l, offset, 4) == [token] + l + [offset, 0] && LastBytes(l) == [token] + l
  {
  }
}
