/** Knuth-Morris-Pratt substring search: include/utstring.h, lines 153-391.

    The table is the optimised one: below the needle's length an entry is the longest border
    that is followed by a different byte. Borders are stated on slices; the right-to-left code
    is specified through the reversed needle and haystack. */
module Kmp {

  newtype Byte = x: int | 0 <= x < 256

  const INT_MAX := 0x7FFF_FFFF

  /** The conversion of a size to a 32-bit int. */
  function IntCast(n: nat): (r: int)
    ensures r <= n && r <= INT_MAX
    ensures n <= INT_MAX <==> r == n
  {
    var low := n % 0x1_0000_0000;
    if low <= INT_MAX then low else low - 0x1_0000_0000
  }

  // ------------------------------------------------------------------ borders

  /** The prefix of length b is also the suffix, of the same length, of the prefix of length k. */
  ghost predicate Border(p: seq<Byte>, k: nat, b: int)
    requires k <= |p|
  {
    0 <= b < k && p[..b] == p[k - b..k]
  }

  /** A border of p[..k] that can be extended differently from p[..k] itself. */
  ghost predicate StrongBorder(p: seq<Byte>, k: nat, b: int)
    requires k < |p|
  {
    Border(p, k, b) && p[b] != p[k]
  }

  /** A border of p[..k] that the byte p[k] extends. */
  ghost predicate Extendable(p: seq<Byte>, k: nat, b: int)
    requires k < |p|
  {
    Border(p, k, b) && p[b] == p[k]
  }

  /** j is a border of p[..k] or -1, and no border that p[k] extends is longer. */
  ghost predicate Candidate(p: seq<Byte>, k: nat, j: int)
    requires k < |p|
  {
    && (j == -1 || Border(p, k, j))
    && forall b :: Extendable(p, k, b) ==> b <= j
  }

  /** t is the longest proper border of p[..k], or -1 when there is none (only for k == 0). */
  ghost predicate LongestBorder(p: seq<Byte>, k: nat, t: int)
    requires k <= |p|
  {
    && (t == -1 || Border(p, k, t))
    && forall b :: Border(p, k, b) ==> b <= t
  }

  /** t is the longest strong border of p[..k], or -1 when there is none. */
  ghost predicate LongestStrongBorder(p: seq<Byte>, k: nat, t: int)
    requires k < |p|
  {
    && (t == -1 || StrongBorder(p, k, t))
    && forall b :: StrongBorder(p, k, b) ==> b <= t
  }

  /** The longest border of p[..k] of length at most b, or -1; strong ones only if asked. */
  ghost function Longest(p: seq<Byte>, k: nat, b: int, strong: bool): int
    requires if strong then k < |p| else k <= |p|
    decreases b + 1
  {
    if b < 0 then -1
    else if (if strong then StrongBorder(p, k, b) else Border(p, k, b)) then b
    else Longest(p, k, b - 1, strong)
  }

  /** The table entry for k: a strong border below the needle's length, the plain longest
      border at its end. */
  ghost function Failure(p: seq<Byte>, k: nat): int
    requires k <= |p|
  {
    Longest(p, k, k - 1, k < |p|)
  }

  /** The table entries from k on. */
  ghost function Entries(p: seq<Byte>, k: nat): (t: seq<int>)
    requires k <= |p| + 1
    ensures |t| == |p| + 1 - k
    decreases |p| - k
  {
    if k > |p| then [] else [Failure(p, k)] + Entries(p, k + 1)
  }

  ghost function Table(p: seq<Byte>): (t: seq<int>)
    ensures |t| == |p| + 1
  {
    Entries(p, 0)
  }

  lemma {:induction false} EntriesAt(p: seq<Byte>, from: nat, k: nat)
    requires from <= k <= |p|
    ensures Entries(p, from)[k - from] == Failure(p, k)
    decreases k - from
  {
    if from < k {
      EntriesAt(p, from + 1, k);
    }
  }

  lemma {:induction false} LongestIsLongest(p: seq<Byte>, k: nat, c: int, strong: bool)
    requires if strong then k < |p| else k <= |p|
    requires -1 <= c < k
    ensures var t := Longest(p, k, c, strong);
      && -1 <= t <= c
      && (t == -1 || if strong then StrongBorder(p, k, t) else Border(p, k, t))
      && (strong ==> forall b :: StrongBorder(p, k, b) && b <= c ==> b <= t)
      && (!strong ==> forall b :: Border(p, k, b) && b <= c ==> b <= t)
    decreases c + 1
  {
    if c >= 0 {
      LongestIsLongest(p, k, c - 1, strong);
    }
  }

  /** Every entry but the last is the longest border followed by a different byte, or -1. */
  lemma EntryIsLongestStrongBorder(p: seq<Byte>, k: nat)
    requires k < |p|
    ensures LongestStrongBorder(p, k, Table(p)[k]) && -1 <= Table(p)[k] < k
  {
    EntriesAt(p, 0, k);
    LongestIsLongest(p, k, k - 1, true);
  }

  /** The last entry is the longest proper border of the whole needle. */
  lemma LastEntryIsLongestBorder(p: seq<Byte>)
    ensures LongestBorder(p, |p|, Table(p)[|p|])
  {
    EntriesAt(p, 0, |p|);
    LongestIsLongest(p, |p|, |p| - 1, false);
  }

  lemma BorderOfBorder(p: seq<Byte>, k: nat, j: int, b: int)
    requires k <= |p| && Border(p, k, j) && 0 <= b < j
    ensures Border(p, k, b) <==> Border(p, j, b)
  {
    assert p[j - b..j] == p[..j][j - b..];
    assert p[k - b..k] == p[k - j..k][j - b..];
  }

  lemma BorderExtends(p: seq<Byte>, k: nat, b: nat)
    requires k < |p| && b < k
    ensures Border(p, k + 1, b + 1) <==> Border(p, k, b) && p[b] == p[k]
  {
    assert p[..b + 1] == p[..b] + [p[b]];
    assert p[k - b..k + 1] == p[k - b..k] + [p[k]];
    if Border(p, k + 1, b + 1) {
      assert p[..b] == p[..b + 1][..b] == p[k - b..k + 1][..b] == p[k - b..k];
      assert p[b] == p[..b + 1][b] == p[k - b..k + 1][b] == p[k];
    }
  }

  lemma EmptyBorder(p: seq<Byte>, k: nat)
    requires 0 < k <= |p|
    ensures Border(p, k, 0)
  {
  }

  lemma EntryZero(p: seq<Byte>)
    ensures Table(p)[0] == -1 && LongestBorder(p, 0, -1)
  {
    EntriesAt(p, 0, 0);
  }

  /** A border that ends in a mismatch may be replaced by its own longest strong border: no
      border that could be extended by p[k] is skipped. */
  lemma FallBack(p: seq<Byte>, k: nat, j: int)
    requires k < |p| && Candidate(p, k, j) && j != -1 && p[k] != p[j]
    ensures -1 <= Table(p)[j] < j && Candidate(p, k, Table(p)[j])
  {
    var t := Table(p)[j];
    EntryIsLongestStrongBorder(p, j);
    if t != -1 {
      BorderOfBorder(p, k, j, t);
    }
    forall b | Extendable(p, k, b)
      ensures b <= t
    {
      BorderOfBorder(p, k, j, b);
      assert StrongBorder(p, j, b);
    }
  }

  /** From the longest border that p[k] extends to the longest border of the next prefix. */
  lemma NextBorder(p: seq<Byte>, k: nat, j: int)
    requires k < |p|
    requires Candidate(p, k, j) && (j == -1 || p[k] == p[j])
    ensures LongestBorder(p, k + 1, j + 1)
  {
    EmptyBorder(p, k + 1);
    if j != -1 {
      BorderExtends(p, k, j);
    }
    forall b {:trigger Border(p, k + 1, b)} | Border(p, k + 1, b)
      ensures b <= j + 1
    {
      if b > 0 {
        BorderExtends(p, k, b - 1);
        assert Extendable(p, k, b - 1);
      }
    }
  }

  /** The entry written for k, given the longest border j of p[..k]. */
  lemma EntryFromBorder(p: seq<Byte>, k: nat, j: int)
    requires 0 < k < |p| && LongestBorder(p, k, j) && j >= 0
    ensures Table(p)[k] == if p[k] == p[j] then Table(p)[j] else j
  {
    var t := Table(p)[j];
    EntryIsLongestStrongBorder(p, j);
    EntryIsLongestStrongBorder(p, k);
    if p[k] == p[j] {
      if t != -1 {
        BorderOfBorder(p, k, j, t);
      }
      var b := Table(p)[k];
      if b != -1 {
        BorderOfBorder(p, k, j, b);
        assert StrongBorder(p, j, b);
      }
      assert t == -1 || StrongBorder(p, k, t);
    } else {
      assert StrongBorder(p, k, j);
    }
  }

  /** One round of table building: the longest border of the next prefix and its entry. */
  lemma Advance(p: seq<Byte>, k: nat, j: int)
    requires k < |p|
    requires Candidate(p, k, j) && (j == -1 || p[k] == p[j])
    ensures j < k && LongestBorder(p, k + 1, j + 1)
    ensures Table(p)[k + 1] == if k + 1 < |p| && p[k + 1] == p[j + 1] then Table(p)[j + 1] else j + 1
  {
    NextBorder(p, k, j);
    if k + 1 < |p| {
      EntryFromBorder(p, k + 1, j + 1);
    } else {
      LastEntryIsLongestBorder(p);
    }
  }

  /** _utstring_BuildTable. Bytes are compared by the inner loop and once for every entry but the
      first and the last. */
  method BuildTable(p: seq<Byte>, table: array<int>) returns (ghost inner: nat, ghost outer: nat)
    requires |p| < table.Length
    modifies table
    ensures table[..|p| + 1] == Table(p)
    ensures forall k :: |p| < k < table.Length ==> table[k] == old(table[k])
    ensures inner <= 2 * |p| && outer == if |p| > 0 then |p| - 1 else 0
  {
    hide Table, Border;
    inner, outer := 0, 0;
    ghost var t := Table(p);
    EntryZero(p);
    var i, j := 0, -1;
    table[i] := j;
    while i < |p|
      invariant 0 <= i <= |p| && -1 <= j < i
      invariant LongestBorder(p, i, j) && (i > 0 ==> j >= 0)
      invariant forall k :: 0 <= k <= i ==> table[k] == t[k]
      invariant forall k :: |p| < k < table.Length ==> table[k] == old(table[k])
      invariant inner <= 2 * i - j - 1 && outer == if i < |p| then i else if i > 0 then i - 1 else 0
    {
      ghost var before, failures := j, 0;
      while j > -1 && p[i] != p[j]
        invariant -1 <= j < i
        invariant Candidate(p, i, j)
        invariant 0 <= failures <= before - j
        modifies {}
        decreases j
      {
        FallBack(p, i, j);
        failures := failures + 1;
        j := table[j];
      }
      inner := inner + failures + if j > -1 then 1 else 0;
      Advance(p, i, j);
      i := i + 1;
      j := j + 1;
      if i < |p| {
        outer := outer + 1;
        if p[i] == p[j] {
          table[i] := table[j];
        } else {
          table[i] := j;
        }
      } else {
        table[i] := j;
      }
    }
  }

  // ------------------------------------------------------- left-to-right search

  ghost predicate Occurs(p: seq<Byte>, h: seq<Byte>, s: int) {
    0 <= s && s + |p| <= |h| && h[s..s + |p|] == p
  }

  ghost predicate IsLeast(p: seq<Byte>, h: seq<Byte>, pos: int) {
    && (pos == -1 || Occurs(p, h, pos))
    && forall s :: Occurs(p, h, s) ==> 0 <= pos <= s
  }

  ghost predicate IsGreatest(p: seq<Byte>, h: seq<Byte>, pos: int) {
    && (pos == -1 || Occurs(p, h, pos))
    && forall s :: Occurs(p, h, s) ==> s <= pos
  }

  /** i bytes of the needle end at position j of the haystack. */
  ghost predicate Matched(p: seq<Byte>, h: seq<Byte>, i: nat, j: nat)
  {
    i <= j <= |h| && i <= |p| && p[..i] == h[j - i..j]
  }

  /** No occurrence starts before position lo. */
  ghost predicate NoneBefore(p: seq<Byte>, h: seq<Byte>, lo: int) {
    forall s :: Occurs(p, h, s) ==> s >= lo
  }

  /** Falling back along the table skips no occurrence. */
  lemma Shift(p: seq<Byte>, h: seq<Byte>, i: nat, j: nat)
    requires Matched(p, h, i, j) && i < |p| && j < |h| && p[i] != h[j]
    requires NoneBefore(p, h, j - i)
    ensures var t := Table(p)[i];
      && -1 <= t < i
      && (t >= 0 ==> Matched(p, h, t, j))
      && NoneBefore(p, h, j - t)
  {
    var t := Table(p)[i];
    EntryIsLongestStrongBorder(p, i);
    if t >= 0 {
      assert p[i - t..i] == p[..i][i - t..] == h[j - i..j][i - t..] == h[j - t..j];
    }
    forall s | Occurs(p, h, s)
      ensures s >= j - t
    {
      if s <= j {
        var b := j - s;
        if b == |p| {
        } else {
          assert p[b] == h[s..s + |p|][b] == h[j];
          assert p[..b] == h[s..s + |p|][..b] == h[s..j];
          assert p[i - b..i] == p[..i][i - b..] == h[j - i..j][i - b..] == h[s..j];
          assert b < i && StrongBorder(p, i, b);
        }
      }
    }
  }

  lemma ExtendMatch(p: seq<Byte>, h: seq<Byte>, i: nat, j: nat)
    requires Matched(p, h, i, j) && i < |p| && j < |h| && p[i] == h[j]
    ensures Matched(p, h, i + 1, j + 1)
  {
    assert p[..i + 1] == p[..i] + [p[i]];
    assert h[j - i..j + 1] == h[j - i..j] + [h[j]];
  }

  lemma NothingMatched(p: seq<Byte>, h: seq<Byte>)
    ensures Matched(p, h, 0, 0) && NoneBefore(p, h, 0)
  {
  }

  lemma NothingMatchedAt(p: seq<Byte>, h: seq<Byte>, j: nat)
    requires j <= |h|
    ensures Matched(p, h, 0, j)
  {
  }

  lemma WholeMatch(p: seq<Byte>, h: seq<Byte>, j: nat)
    requires Matched(p, h, |p|, j) && NoneBefore(p, h, j - |p|)
    ensures IsLeast(p, h, j - |p|)
  {
  }

  /** How many bytes of a haystack of length n the search loop can reach. */
  function Reach(n: nat): (r: nat)
    ensures r <= n
    ensures n <= INT_MAX <==> r == n
  {
    if IntCast(n) < 0 then 0 else IntCast(n)
  }

  /** Where a needle of length m, of which c bytes are compared, can be found: the loop also stops
      when the rest of the haystack is too short for the whole needle. */
  function Searched(n: nat, m: nat, c: nat): (r: nat)
    requires c <= m <= n
    ensures r <= n
  {
    if Reach(n) < n - m + c then Reach(n) else n - m + c
  }

  /** What the search returns, for any lengths: the comparison with the needle's length is with the
      length converted to int, so only that many bytes of the needle are looked for; if they are
      none, the search ends in its first round. */
  ghost predicate Finds(p: seq<Byte>, h: seq<Byte>, pos: int)
    requires p != []
  {
    var c := IntCast(|p|);
    if |p| > |h| then pos == -1
    else if c > 0 then IsLeast(p[..c], h[..Searched(|h|, |p|, c)], pos)
    else pos == if Reach(|h|) == 0 then -1 else if p[0] == h[0] then 0 else 1
  }

  /** The table of a prefix of the needle is a prefix of the table. */
  lemma TablePrefix(p: seq<Byte>, c: nat, k: nat)
    requires k < c <= |p|
    ensures Table(p[..c])[k] == Table(p)[k]
  {
    hide Table, Border;
    var q := p[..c];
    EntryIsLongestStrongBorder(p, k);
    EntryIsLongestStrongBorder(q, k);
    forall b: int
      ensures StrongBorder(q, k, b) <==> StrongBorder(p, k, b)
    {
      BorderPrefix(p, c, k, b);
    }
  }

  lemma BorderPrefix(p: seq<Byte>, c: nat, k: nat, b: int)
    requires k < c <= |p|
    ensures Border(p[..c], k, b) <==> Border(p, k, b)
    ensures StrongBorder(p[..c], k, b) <==> StrongBorder(p, k, b)
  {
    if 0 <= b < k {
      assert p[..c][..b] == p[..b] && p[..c][k - b..k] == p[k - b..k];
    }
  }

  /** Falling back along the whole needle's table skips no occurrence of the bytes looked for. */
  lemma ShiftPrefix(p: seq<Byte>, c: nat, h: seq<Byte>, i: nat, j: nat)
    requires c <= |p| && Matched(p[..c], h, i, j) && i < c && j < |h| && p[i] != h[j]
    requires NoneBefore(p[..c], h, j - i)
    ensures var t := Table(p)[i];
      && -1 <= t < i
      && (t >= 0 ==> Matched(p[..c], h, t, j))
      && NoneBefore(p[..c], h, j - t)
  {
    hide Table, Matched, NoneBefore;
    TablePrefix(p, c, i);
    Shift(p[..c], h, i, j);
  }

  lemma OccursInLonger(p: seq<Byte>, h: seq<Byte>, a: nat, b: nat, s: int)
    requires a <= b <= |h|
    ensures Occurs(p, h[..a], s) <==> Occurs(p, h[..b], s) && s + |p| <= a
  {
    if 0 <= s && s + |p| <= a {
      assert h[..a][s..s + |p|] == h[s..s + |p|] == h[..b][s..s + |p|];
    }
  }

  /** The search stops when the haystack is too short for what is still missing. */
  lemma NothingFound(p: seq<Byte>, c: nat, h: seq<Byte>, i: nat, j: nat)
    requires 0 < c <= |p| <= |h| && i < c && NoneBefore(p[..c], h[..Reach(|h|)], j - i)
    requires j >= Reach(|h|) || |h| - j + i < |p|
    ensures IsLeast(p[..c], h[..Searched(|h|, |p|, c)], -1)
  {
    var q, text, part := p[..c], h[..Reach(|h|)], h[..Searched(|h|, |p|, c)];
    forall s: int
      ensures !Occurs(q, part, s)
    {
      OccursInLonger(q, h, |part|, |text|, s);
    }
  }

  /** A match the search has come to is the least one where it looks. */
  lemma SomethingFound(p: seq<Byte>, c: nat, h: seq<Byte>, j: nat)
    requires 0 < c <= |p| <= |h| && j - c <= |h| - |p|
    requires Matched(p[..c], h[..Reach(|h|)], c, j) && NoneBefore(p[..c], h[..Reach(|h|)], j - c)
    ensures IsLeast(p[..c], h[..Searched(|h|, |p|, c)], j - c)
  {
    var q, text, part := p[..c], h[..Reach(|h|)], h[..Searched(|h|, |p|, c)];
    assert q[..c] == q;
    assert Occurs(q, text, j - c);
    OccursInLonger(q, h, |part|, |text|, j - c);
    forall s: int | Occurs(q, part, s)
      ensures s >= j - c
    {
      OccursInLonger(q, h, |part|, |text|, s);
    }
  }

  /** _utstring_find. */
  method Find(h: seq<Byte>, p: seq<Byte>, table: array<int>) returns (pos: int, ghost comparisons: nat)
    requires |p| > 0 && |p| < table.Length && table[..|p| + 1] == Table(p)
    ensures Finds(p, h, pos)
    ensures comparisons <= 2 * |h|
  {
    hide Table, Border, Matched, NoneBefore, IsLeast, IntCast, Searched;
    pos, comparisons := -1, 0;
    var i, j := 0, 0;
    ghost var text, c := h[..Reach(|h|)], IntCast(|p|);
    EntryZero(p);
    if c > 0 {
      NothingMatched(p[..c], text);
    }
    while j < IntCast(|h|) && |h| - j + i >= |p|
      invariant 0 <= i < |p| && 0 <= j <= |text| && (i < c || i == j == 0)
      invariant c > 0 ==> Matched(p[..c], text, i, j) && NoneBefore(p[..c], text, j - i)
      invariant |p| > |h| ==> i == j == 0
      invariant comparisons <= 2 * j - i
    {
      ghost var before, failures := i, 0;
      while i > -1 && p[i] != h[j]
        invariant -1 <= i <= before
        invariant c > 0 && i >= 0 ==> Matched(p[..c], text, i, j)
        invariant c > 0 ==> NoneBefore(p[..c], text, j - i)
        invariant 0 <= failures <= before - i
        invariant i < before ==> p[before] != h[j]
        decreases i
      {
        EntryIsLongestStrongBorder(p, i);
        if c > 0 {
          ShiftPrefix(p, c, text, i, j);
        }
        failures := failures + 1;
        i := table[i];
      }
      comparisons := comparisons + failures + if i > -1 then 1 else 0;
      if c > 0 {
        if i >= 0 {
          ExtendMatch(p[..c], text, i, j);
        } else {
          NothingMatchedAt(p[..c], text, j + 1);
        }
      }
      i := i + 1;
      j := j + 1;
      if i >= IntCast(|p|) {
        pos := j - i;
        if c > 0 {
          SomethingFound(p, c, h, j);
        }
        return;
      }
    }
    if c > 0 && |p| <= |h| {
      NothingFound(p, c, h, i, j);
    }
  }

  /** For an honest length of the needle that is the least occurrence in the part of the haystack
      that can be reached. */
  lemma FindsLeast(p: seq<Byte>, h: seq<Byte>, pos: int)
    requires p != [] && Finds(p, h, pos) && (|p| <= INT_MAX || |p| > |h|)
    ensures IsLeast(p, h[..Reach(|h|)], pos)
  {
    if |p| <= |h| {
      assert p[..|p|] == p;
      assert Searched(|h|, |p|, |p|) == Reach(|h|);
    }
  }

  /** A haystack of n times the byte c, but d from position k on. */
  ghost function Blocks(n: nat, k: nat, c: Byte, d: Byte): (h: seq<Byte>)
    ensures |h| == n && forall x :: 0 <= x < n ==> h[x] == if x < k then c else d
  {
    seq(n, x => if x < k then c else d)
  }

  /** Every search for a needle of length m in a haystack of length n is right exactly if the
      needle is the longer one or the haystack's length fits an int. */
  lemma SearchIsRight(m: nat, n: nat)
    requires m > 0
    ensures m > n || n <= INT_MAX <==>
      forall p: seq<Byte>, h: seq<Byte>, pos: int | |p| == m && |h| == n && Finds(p, h, pos) :: IsLeast(p, h, pos)
  {
    if m > n || n <= INT_MAX {
      forall p: seq<Byte>, h: seq<Byte>, pos: int | |p| == m && |h| == n && Finds(p, h, pos)
        ensures IsLeast(p, h, pos)
      {
        FindsLeast(p, h, pos);
        assert n <= INT_MAX ==> h[..Reach(n)] == h;
      }
    } else {
      var p, h, pos := WrongSearch(m, n);
      assert |p| == m && |h| == n && Finds(p, h, pos) && !IsLeast(p, h, pos);
    }
  }

  /** A search that goes wrong, for every pair of lengths for which one does. */
  lemma WrongSearch(m: nat, n: nat) returns (p: seq<Byte>, h: seq<Byte>, pos: int)
    requires 0 < m <= n && n > INT_MAX
    ensures |p| == m && |h| == n && Finds(p, h, pos) && !IsLeast(p, h, pos)
  {
    hide IntCast;
    var c := IntCast(m);
    if m <= INT_MAX {
      p, h, pos := Blocks(m, m - 1, 0, 1), Blocks(n, n - 1, 0, 1), -1;
      MissedAtEnd(p, h);
    } else if c <= 0 && Reach(n) > 0 {
      p, h, pos := Blocks(m, m, 0, 0), Blocks(n, 0, 0, 1), 1;
      NotAt(p, h, 1, 1);
    } else if c <= 0 || Searched(n, m, c) < c {
      p, h, pos := Blocks(m, m, 0, 0), Blocks(n, n, 0, 0), -1;
      assert h[0..m] == p;
      assert Occurs(p, h, 0);
    } else {
      p, h, pos := Blocks(m, m, 0, 0), Blocks(n, c, 0, 1), 0;
      assert h[..Searched(n, m, c)][0..c] == p[..c];
      assert Occurs(p[..c], h[..Searched(n, m, c)], 0);
      NotAt(p, h, 0, c);
    }
  }

  lemma NotAt(p: seq<Byte>, h: seq<Byte>, s: nat, at: nat)
    requires s <= at < |h| && at - s < |p| && h[at] != p[at - s]
    ensures !Occurs(p, h, s)
  {
    assert s + |p| <= |h| ==> h[s..s + |p|][at - s] == h[at];
  }

  /** The only occurrence ends with the haystack, beyond what can be reached. */
  lemma MissedAtEnd(p: seq<Byte>, h: seq<Byte>)
    requires 0 < |p| <= INT_MAX < |h|
    requires p == Blocks(|p|, |p| - 1, 0, 1) && h == Blocks(|h|, |h| - 1, 0, 1)
    ensures Finds(p, h, -1) && !IsLeast(p, h, -1)
  {
    var m, n, text := |p|, |h|, h[..Reach(|h|)];
    assert p[..m] == p && Searched(n, m, m) == Reach(n);
    forall s: int
      ensures !Occurs(p, text, s)
    {
      if 0 <= s && s + m <= |text| {
        NotAt(p, text, s, s + m - 1);
      }
    }
    assert h[n - m..n] == p;
    assert Occurs(p, h, n - m);
  }

  // ------------------------------------------------------- right to left

  /** The first m elements, last one first. */
  ghost function Backwards<T>(s: seq<T>, m: nat): (r: seq<T>)
    requires m <= |s|
    ensures |r| == m
  {
    if m == 0 then [] else [s[m - 1]] + Backwards(s, m - 1)
  }

  ghost function Reverse<T>(s: seq<T>): (r: seq<T>)
    ensures |r| == |s|
  {
    Backwards(s, |s|)
  }

  lemma {:induction false} BackwardsAt<T>(s: seq<T>, m: nat, k: nat)
    requires k < m <= |s|
    ensures Backwards(s, m)[m - 1 - k] == s[k]
  {
    if k < m - 1 {
      BackwardsAt(s, m - 1, k);
    }
  }

  lemma ReverseAt<T>(s: seq<T>)
    ensures forall k {:trigger s[k]} :: 0 <= k < |s| ==> Reverse(s)[|s| - 1 - k] == s[k]
  {
    forall k {:trigger s[k]} | 0 <= k < |s|
      ensures Reverse(s)[|s| - 1 - k] == s[k]
    {
      BackwardsAt(s, |s|, k);
    }
  }

  lemma ReverseSlice<T>(s: seq<T>, from: nat, to: nat)
    requires from <= to <= |s|
    ensures Reverse(s)[|s| - to..|s| - from] == Reverse(s[from..to])
  {
    var w := s[from..to];
    var left, right := Reverse(s)[|s| - to..|s| - from], Reverse(w);
    forall k | 0 <= k < |right|
      ensures left[k] == right[k]
    {
      BackwardsAt(w, |w|, |w| - 1 - k);
      BackwardsAt(s, |s|, to - 1 - k);
    }
  }

  lemma ReverseInjective<T>(a: seq<T>, b: seq<T>)
    requires Reverse(a) == Reverse(b)
    ensures a == b
  {
    assert |Reverse(a)| == |Reverse(b)|;
    ReverseAt(a);
    ReverseAt(b);
    forall k | 0 <= k < |a|
      ensures a[k] == b[k]
    {
      assert Reverse(a)[|a| - 1 - k] == Reverse(b)[|a| - 1 - k];
    }
  }

  /** A table read backwards, its positions counted from the needle's other end. */
  ghost function Mirror(t: seq<int>): (u: seq<int>)
    ensures |u| == |t|
  {
    if t == [] then [] else Mirror'(t, |t|)
  }

  ghost function Mirror'(t: seq<int>, m: nat): (u: seq<int>)
    requires m <= |t|
    ensures |u| == m
  {
    if m == 0 then [] else [|t| - 2 - t[m - 1]] + Mirror'(t, m - 1)
  }

  lemma {:induction false} MirrorAt(t: seq<int>, m: nat, k: nat)
    requires k < m <= |t|
    ensures Mirror'(t, m)[m - 1 - k] == |t| - 2 - t[k]
  {
    if k < m - 1 {
      MirrorAt(t, m - 1, k);
    }
  }

  /** The right-to-left table is the mirror image of the reversed needle's table. */
  ghost function TableR(p: seq<Byte>): (u: seq<int>)
    ensures |u| == |p| + 1
  {
    Mirror(Table(Reverse(p)))
  }

  lemma TableRAt(p: seq<Byte>, k: nat)
    requires k <= |p|
    ensures TableR(p)[|p| - k] == |p| - 1 - Table(Reverse(p))[k]
  {
    MirrorAt(Table(Reverse(p)), |p| + 1, k);
  }

  /** The bytes after position j are a prefix of the bytes after position k. */
  ghost predicate SuffixBorder(p: seq<Byte>, k: int, j: int)
  {
    -1 <= k < j < |p| && p[j + 1..] == p[k + 1..k + |p| - j]
  }

  lemma MirrorBorder(p: seq<Byte>, k: int, j: int)
    requires -1 <= k < j < |p|
    ensures SuffixBorder(p, k, j) <==> Border(Reverse(p), |p| - 1 - k, |p| - 1 - j)
  {
    ReverseSlice(p, j + 1, |p|);
    ReverseSlice(p, k + 1, k + |p| - j);
    if Reverse(p[j + 1..]) == Reverse(p[k + 1..k + |p| - j]) {
      ReverseInjective(p[j + 1..], p[k + 1..k + |p| - j]);
    }
    assert p[j + 1..] == p[j + 1..|p|];
  }

  /** What a right-to-left entry means without reversal: entry k + 1 is the least j after k at
      which the needle's end repeats the bytes after k, preceded by a different byte; or |p|. */
  lemma EntryR(p: seq<Byte>, k: nat)
    requires k < |p|
    ensures var j := TableR(p)[k + 1];
      && (j == |p| || (SuffixBorder(p, k, j) && p[j] != p[k]))
      && forall c :: SuffixBorder(p, k, c) && p[c] != p[k] ==> j <= c
  {
    hide Table, Reverse, Border;
    var q, m := Reverse(p), |p| - 1 - k;
    var t := Table(q)[m];
    TableRAt(p, m);
    ReverseAt(p);
    EntryIsLongestStrongBorder(q, m);
    if t != -1 {
      MirrorBorder(p, k, |p| - 1 - t);
    }
    forall c {:trigger SuffixBorder(p, k, c)} | SuffixBorder(p, k, c) && p[c] != p[k]
      ensures |p| - 1 - t <= c
    {
      MirrorBorder(p, k, c);
      assert StrongBorder(q, m, |p| - 1 - c);
    }
  }

  /** Entry 0 is the least position after which the needle's end is its beginning: there the whole
      needle's longest proper border starts. */
  lemma FirstEntryR(p: seq<Byte>)
    ensures var j := TableR(p)[0];
      && (p == [] ==> j == 0)
      && (p != [] ==> j >= 0 && SuffixBorder(p, -1, j))
      && forall c :: c >= 0 && SuffixBorder(p, -1, c) ==> j <= c
  {
    hide Table, Reverse;
    var q := Reverse(p);
    var t := Table(q)[|p|];
    TableRAt(p, |p|);
    LastEntryIsLongestBorder(q);
    if p == [] {
      EntryZero(q);
    } else {
      EmptyBorder(q, |p|);
      MirrorBorder(p, -1, |p| - 1 - t);
      forall c {:trigger SuffixBorder(p, -1, c)} | c >= 0 && SuffixBorder(p, -1, c)
        ensures |p| - 1 - t <= c
      {
        MirrorBorder(p, -1, c);
      }
    }
  }

  /** _utstring_BuildTableR; k and l are i and j counted from the needle's end. */
  method BuildTableR(p: seq<Byte>, table: array<int>) returns (ghost inner: nat, ghost outer: nat)
    requires |p| < table.Length
    modifies table
    ensures table[..|p| + 1] == TableR(p)
    ensures forall k :: |p| < k < table.Length ==> table[k] == old(table[k])
    ensures inner <= 2 * |p| && outer == if |p| > 0 then |p| - 1 else 0
  {
    hide Reverse, Mirror, Table, Border;
    inner, outer := 0, 0;
    ghost var n, q := |p|, Reverse(p);
    ReverseAt(p);
    var i := |p| - 1;
    var j := i + 1;
    ghost var k, l, t, u := 0, -1, Table(q), TableR(p);
    EntryZero(q);
    TableRAt(p, 0);
    table[i + 1] := j;
    while i >= 0
      invariant 0 <= k <= n && -1 <= l < k && i == n - 1 - k && j == n - 1 - l
      invariant LongestBorder(q, k, l) && (k > 0 ==> l >= 0)
      invariant forall x :: i < x <= n ==> table[x] == u[x]
      invariant forall x :: n < x < table.Length ==> table[x] == old(table[x])
      invariant inner <= 2 * k - l - 1 && outer == if k < n then k else if k > 0 then k - 1 else 0
    {
      ghost var before, failures := l, 0;
      while j < |p| && p[i] != p[j]
        invariant -1 <= l < k && j == n - 1 - l
        invariant Candidate(q, k, l)
        invariant 0 <= failures <= before - l
        modifies {}
        decreases l
      {
        FallBack(q, k, l);
        TableRAt(p, l);
        assert table[j + 1] == n - 1 - t[l];
        failures, l := failures + 1, t[l];
        j := table[j + 1];
      }
      inner := inner + failures + if j < |p| then 1 else 0;
      Advance(q, k, l);
      i := i - 1;
      j := j - 1;
      k, l := k + 1, l + 1;
      TableRAt(p, k);
      if i >= 0 {
        outer := outer + 1;
        TableRAt(p, l);
        if p[i] == p[j] {
          table[i + 1] := table[j + 1];
        } else {
          table[i + 1] := j;
        }
      } else {
        table[i + 1] := j;
      }
    }
  }

  lemma OccursReversed(p: seq<Byte>, h: seq<Byte>, s: int)
    ensures Occurs(p, h, s) <==> Occurs(Reverse(p), Reverse(h), |h| - |p| - s)
  {
    if 0 <= s && s + |p| <= |h| {
      ReverseSlice(h, s, s + |p|);
      if Reverse(h[s..s + |p|]) == Reverse(p) {
        ReverseInjective(h[s..s + |p|], p);
      }
    }
  }

  lemma GreatestIsLeastReversed(p: seq<Byte>, h: seq<Byte>, pos: int)
    requires IsLeast(Reverse(p), Reverse(h), pos)
    ensures IsGreatest(p, h, if pos == -1 then -1 else |h| - |p| - pos)
  {
    if pos != -1 {
      OccursReversed(p, h, |h| - |p| - pos);
    }
    forall s {:trigger Occurs(p, h, s)} | Occurs(p, h, s)
      ensures pos != -1 && s <= |h| - |p| - pos
    {
      OccursReversed(p, h, s);
    }
  }

  /** The search stops when the rest of the haystack is too short for the needle. */
  lemma NoRoomLeft(p: seq<Byte>, h: seq<Byte>, i: nat, j: nat)
    requires i < |p| && NoneBefore(p, h, j - i)
    requires j >= |h| || |h| - j + i < |p|
    ensures IsLeast(p, h, -1)
  {
  }

  /** The bytes that are compared, those before the needle's length as an int, agree at the end of
      the haystack. */
  ghost predicate AgreesAtEnd(p: seq<Byte>, h: seq<Byte>)
    requires |p| <= |h|
  {
    forall k :: 0 <= k < IntCast(|p|) ==> p[k] == h[|h| - |p| + k]
  }

  /** What the search promises, for any lengths: for an honest length of the needle the greatest
      occurrence, and the end of the haystack whenever no byte compared there differs. */
  ghost predicate FindsR(p: seq<Byte>, h: seq<Byte>, pos: int) {
    && (|p| <= INT_MAX || |p| > |h| ==> IsGreatest(p, h, pos))
    && (|p| <= |h| && AgreesAtEnd(p, h) ==> pos == |h| - |p|)
  }

  /** Where the search stands when k bytes of the needle's end are matched and the last l bytes of
      the haystack are used up. */
  ghost predicate Progress(p: seq<Byte>, h: seq<Byte>, k: int, l: nat) {
    && (|p| <= INT_MAX || |p| > |h| ==>
          && (k >= 0 ==> Matched(Reverse(p), Reverse(h), k, l))
          && NoneBefore(Reverse(p), Reverse(h), l - k))
    && (|p| <= |h| && AgreesAtEnd(p, h) ==> k == l)
  }

  lemma ProgressStart(p: seq<Byte>, h: seq<Byte>)
    ensures Progress(p, h, 0, 0)
  {
    NothingMatched(Reverse(p), Reverse(h));
  }

  /** Falling back from a mismatch. */
  lemma ProgressBack(p: seq<Byte>, h: seq<Byte>, k: nat, l: nat)
    requires Progress(p, h, k, l) && k < |p| <= |h| && l < |h|
    requires |p| - 1 - k < IntCast(|p|) && p[|p| - 1 - k] != h[|h| - 1 - l]
    ensures var t := |p| - 1 - TableR(p)[|p| - k]; -1 <= t < k && Progress(p, h, t, l)
  {
    hide Reverse, Mirror, Table, Matched, NoneBefore;
    var q, text := Reverse(p), Reverse(h);
    TableRAt(p, k);
    EntryIsLongestStrongBorder(q, k);
    if |p| <= INT_MAX {
      ReverseAt(p);
      ReverseAt(h);
      assert p[|p| - 1 - k] == q[k] && h[|h| - 1 - l] == text[l];
      Shift(q, text, k, l);
    }
  }

  /** The next byte matches, or is not compared. */
  lemma ProgressOn(p: seq<Byte>, h: seq<Byte>, k: int, l: nat)
    requires Progress(p, h, k, l) && -1 <= k < |p| <= |h| && l < |h|
    requires k >= 0 ==> |p| - 1 - k >= IntCast(|p|) || p[|p| - 1 - k] == h[|h| - 1 - l]
    ensures Progress(p, h, k + 1, l + 1)
  {
    hide Reverse, Matched, NoneBefore, AgreesAtEnd;
    var q, text := Reverse(p), Reverse(h);
    if |p| <= INT_MAX {
      if k >= 0 {
        ReverseAt(p);
        ReverseAt(h);
        assert p[|p| - 1 - k] == q[k] && h[|h| - 1 - l] == text[l];
        ExtendMatch(q, text, k, l);
      } else {
        NothingMatchedAt(q, text, l + 1);
      }
    }
  }

  lemma ProgressFound(p: seq<Byte>, h: seq<Byte>, l: nat)
    requires Progress(p, h, |p|, l)
    ensures FindsR(p, h, |h| - l)
  {
    hide Reverse, Matched, NoneBefore, AgreesAtEnd, IsLeast, IsGreatest;
    if |p| <= INT_MAX || |p| > |h| {
      WholeMatch(Reverse(p), Reverse(h), l);
      WithinMatched(Reverse(p), Reverse(h), |p|, l);
      GreatestIsLeastReversed(p, h, l - |p|);
    }
  }

  lemma WithinMatched(p: seq<Byte>, h: seq<Byte>, i: nat, j: nat)
    requires Matched(p, h, i, j)
    ensures i <= j <= |h|
  {
  }

  lemma ProgressEnd(p: seq<Byte>, h: seq<Byte>, k: nat, l: nat)
    requires Progress(p, h, k, l) && k < |p| && l <= |h| && (l == |h| || |h| - l + k < |p|)
    ensures FindsR(p, h, -1)
  {
    hide Reverse, Matched, NoneBefore, AgreesAtEnd, IsLeast, IsGreatest;
    if |p| <= INT_MAX || |p| > |h| {
      NoRoomLeft(Reverse(p), Reverse(h), k, l);
      GreatestIsLeastReversed(p, h, -1);
    }
  }

  /** _utstring_findR; only the needle's length is converted to int here. k and l are i and j
      counted from the ends. */
  method FindR(h: seq<Byte>, p: seq<Byte>, table: array<int>) returns (pos: int, ghost comparisons: nat)
    requires |p| > 0 && |p| < table.Length && table[..|p| + 1] == TableR(p)
    ensures FindsR(p, h, pos)
    ensures comparisons <= 2 * |h|
  {
    hide TableR, Progress, FindsR, IntCast;
    pos, comparisons := -1, 0;
    ghost var n, k, l := |p|, 0, 0;
    ProgressStart(p, h);
    var j := |h| - 1;
    var i := |p| - 1;
    while j >= 0 && j >= i
      invariant 0 <= k < n && 0 <= l <= |h| && i == n - 1 - k && j == |h| - 1 - l
      invariant Progress(p, h, k, l) && (n > |h| ==> k == l)
      invariant comparisons <= 2 * l - k
    {
      ghost var before, failures := k, 0;
      while i < IntCast(|p|) && p[i] != h[j]
        invariant -1 <= k <= before && i == n - 1 - k
        invariant Progress(p, h, k, l)
        invariant 0 <= failures <= before - k
        modifies {}
        decreases k
      {
        ProgressBack(p, h, k, l);
        failures, k := failures + 1, n - 1 - TableR(p)[n - k];
        i := table[i + 1];
      }
      comparisons := comparisons + failures + if i < IntCast(|p|) then 1 else 0;
      ProgressOn(p, h, k, l);
      i := i - 1;
      j := j - 1;
      k, l := k + 1, l + 1;
      if i < 0 {
        pos := j + 1;
        ProgressFound(p, h, l);
        return;
      }
    }
    ProgressEnd(p, h, k, l);
  }

  /** Every search from the right for a needle of length m in a haystack of length n is right
      exactly if the needle's length fits an int or the needle is the longer one. */
  lemma SearchRIsRight(m: nat, n: nat)
    ensures m <= INT_MAX || m > n <==>
      forall p: seq<Byte>, h: seq<Byte>, pos: int | |p| == m && |h| == n && FindsR(p, h, pos) :: IsGreatest(p, h, pos)
  {
    if INT_MAX < m <= n {
      var p, h := Blocks(m, m, 0, 0), Blocks(n, n - 1, 0, 1);
      assert FindsR(p, h, n - m);
      NotAt(p, h, n - m, n - 1);
    }
  }

  // ------------------------------------------------------- one-time searches

  /** What utstring_find promises for a start position: the least occurrence wholly inside
      s[from..to], as a position in s. */
  ghost predicate IsLeastWithin(p: seq<Byte>, s: seq<Byte>, from: int, to: int, pos: int) {
    && (pos == -1 || (Occurs(p, s, pos) && from <= pos && pos + |p| <= to))
    && forall k :: Occurs(p, s, k) && from <= k && k + |p| <= to ==> 0 <= pos <= k
  }

  /** What utstring_findR promises: the greatest occurrence wholly inside s[..to]. */
  ghost predicate IsGreatestWithin(p: seq<Byte>, s: seq<Byte>, to: int, pos: int) {
    && (pos == -1 || (Occurs(p, s, pos) && pos + |p| <= to))
    && forall k :: Occurs(p, s, k) && k + |p| <= to ==> k <= pos
  }

  lemma SliceOfSlice<T>(s: seq<T>, from: nat, to: nat, a: nat, b: nat)
    requires from <= to <= |s| && a <= b <= to - from
    ensures s[from..to][a..b] == s[from + a..from + b]
  {
    var left, right := s[from..to][a..b], s[from + a..from + b];
    assert forall x :: 0 <= x < b - a ==> left[x] == right[x];
  }

  /** Occurrences in a slice are the occurrences of the whole that lie inside the slice. */
  lemma OccursInSlice(p: seq<Byte>, s: seq<Byte>, from: nat, to: nat, k: int)
    requires from <= to <= |s|
    ensures Occurs(p, s[from..to], k) <==> Occurs(p, s, from + k) && from <= from + k && from + k + |p| <= to
  {
    if 0 <= k && from + k + |p| <= to {
      SliceOfSlice(s, from, to, k, k + |p|);
    }
  }

  /** A negative start position counts from the end. */
  function StartPosition(s: seq<Byte>, start: int): int {
    if start < 0 then |s| + start else start
  }

  lemma NoRoomWithin(s: seq<Byte>, start: int, needle: seq<Byte>, needleLen: int)
    requires needleLen <= |needle|
    ensures var from := StartPosition(s, start);
      0 < needleLen && needleLen > |s| - from ==>
        IsLeastWithin(needle[..needleLen], s, from, from + if from <= |s| then Reach(|s| - from) else 0, -1)
  {
  }

  /** utstring_find; memory says whether the table could be allocated. The precondition is the
      range of start positions for which no byte before the string is read. */
  method UtFind(s: seq<Byte>, start: int, needle: seq<Byte>, needleLen: int, memory: bool)
    returns (pos: int)
    requires needleLen <= |needle|
    requires start < -|s| ==> needleLen <= 0 || needleLen > -start
    ensures var from := StartPosition(s, start);
      if !memory || needleLen <= 0 || needleLen > |s| - from then pos == -1
      else
        && Finds(needle[..needleLen], s[from..], if pos == -1 then -1 else pos - from)
        && (pos == -1 || pos >= from)
    ensures var from := StartPosition(s, start);
      memory && 0 < needleLen && (needleLen <= INT_MAX || needleLen > |s| - from)
      ==> IsLeastWithin(needle[..needleLen], s, from, from + if from <= |s| then Reach(|s| - from) else 0, pos)
  {
    hide Table, Finds, IsLeast, IsLeastWithin, Reach, IntCast;
    NoRoomWithin(s, start, needle, needleLen);
    var from := if start < 0 then |s| + start else start;
    var haystackLen := |s| - from;
    pos := -1;
    if haystackLen >= needleLen && needleLen > 0 {
      if memory {
        var p := needle[..needleLen];
        var table := new int[needleLen + 1];
        ghost var inner, outer := BuildTable(p, table);
        var h := s[from..];
        ghost var searched: nat;
        pos, searched := Find(h, p, table);
        ghost var found := pos;
        FoundAt(p, h, found);
        if pos >= 0 {
          pos := pos + from;
        }
        if |p| <= INT_MAX {
          FindsLeast(p, h, found);
          LeastInSlice(p, s, from, from + Reach(|h|), found);
        }
      }
    }
  }

  lemma FoundAt(p: seq<Byte>, h: seq<Byte>, pos: int)
    requires p != [] && Finds(p, h, pos)
    ensures pos >= -1
  {
  }

  /** The least occurrence in a slice, as a position in the whole. */
  lemma LeastInSlice(p: seq<Byte>, s: seq<Byte>, from: nat, to: nat, pos: int)
    requires from <= to <= |s| && IsLeast(p, s[from..][..to - from], pos)
    ensures IsLeastWithin(p, s, from, to, if pos >= 0 then pos + from else pos)
  {
    var h := s[from..to];
    assert s[from..][..to - from] == h;
    OccursInSlice(p, s, from, to, pos);
    forall k {:trigger Occurs(p, s, k)} | Occurs(p, s, k) && from <= k && k + |p| <= to
      ensures 0 <= pos <= k - from
    {
      OccursInSlice(p, s, from, to, k - from);
    }
  }

  /** utstring_findR. The precondition keeps the byte at the start position inside the string. */
  method UtFindR(s: seq<Byte>, start: int, needle: seq<Byte>, needleLen: int, memory: bool)
    returns (pos: int)
    requires needleLen <= |needle|
    requires start >= |s| ==> needleLen <= 0 || needleLen > start + 1
    ensures var to := StartPosition(s, start) + 1;
      if !memory || needleLen <= 0 || needleLen > to then pos == -1
      else FindsR(needle[..needleLen], s[..to], pos)
    ensures var to := StartPosition(s, start) + 1;
      memory && 0 < needleLen && (needleLen <= INT_MAX || needleLen > to)
      ==> IsGreatestWithin(needle[..needleLen], s, to, pos)
  {
    var from := if start < 0 then |s| + start else start;
    var haystackLen := from + 1;
    pos := -1;
    if haystackLen >= needleLen && needleLen > 0 {
      if memory {
        var p := needle[..needleLen];
        var table := new int[needleLen + 1];
        ghost var inner, outer := BuildTableR(p, table);
        var h := s[..haystackLen];
        ghost var searched: nat;
        pos, searched := FindR(h, p, table);
        if |p| <= INT_MAX {
          GreatestInPrefix(p, s, haystackLen, pos);
        }
      }
    }
  }

  lemma GreatestInPrefix(p: seq<Byte>, s: seq<Byte>, to: nat, pos: int)
    requires to <= |s| && IsGreatest(p, s[..to], pos)
    ensures IsGreatestWithin(p, s, to, pos)
  {
    assert s[..to] == s[0..to];
    forall k
      ensures Occurs(p, s[..to], k) <==> Occurs(p, s, k) && 0 <= k && k + |p| <= to
    {
      OccursInSlice(p, s, 0, to, k);
    }
  }
}
