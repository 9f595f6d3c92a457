/** FLASHDRVR: identifying the device, and writing any stretch of it. */
module FlashDrvr {
  import opened Arith
  import opened Bitwise
  import opened FlashChip
  import opened FlashWire
  import opened FlashSession
  import opened FlashPort
  import opened FlashDriver
  import opened FlashWriter

  // ---------------------------------------------------------------------------------------------
  // What a write leaves behind

  /** A byte that programming alone cannot turn into what is wanted. */
  predicate Stuck(mem: Memory, a: nat, data: seq<Byte>, i: nat) {
    a <= i < a + |data| && i < MemBytes && And(mem[i], data[i - a]) != data[i - a]
  }

  ghost predicate NeedsErase(mem: Memory, a: nat, data: seq<Byte>, sector: nat) {
    exists i :: i / SectorBytes == sector && Stuck(mem, a, data, i)
  }

  /** A sector that needs an erase and lies where the device ends the program rather than erase. */
  ghost predicate Blocked(mem: Memory, a: nat, data: seq<Byte>, sector: nat) {
    sector >= EraseLimit / SectorBytes && NeedsErase(mem, a, data, sector)
  }

  /** Some sector is. */
  ghost predicate Blocks(mem: Memory, a: nat, data: seq<Byte>) {
    exists k: nat :: Blocked(mem, a, data, k)
  }

  lemma BlocksAt(mem: Memory, a: nat, data: seq<Byte>, k: nat)
    requires Blocked(mem, a, data, k)
    ensures Blocks(mem, a, data)
  {
  }

  ghost predicate NoneBlocked(mem: Memory, a: nat, data: seq<Byte>, below: nat) {
    forall k: nat :: k < below ==> !Blocked(mem, a, data, k)
  }

  /** The data in its place; around it, what was there, or ones where the sector had to be erased. */
  ghost function Written(mem: Memory, a: nat, data: seq<Byte>): Memory {
    seq(MemBytes, i requires 0 <= i < MemBytes =>
      if a <= i < a + |data| then data[i - a]
      else if NeedsErase(mem, a, data, i / SectorBytes) then Ones
      else mem[i])
  }

  /** The sectors before this one are written. */
  ghost function WrittenBelow(mem: Memory, a: nat, data: seq<Byte>, sector: nat): Memory {
    seq(MemBytes, i requires 0 <= i < MemBytes =>
      if i / SectorBytes < sector then Written(mem, a, data)[i] else mem[i])
  }

  lemma BurnTwice(mem: Memory, a: nat, x: seq<Byte>, y: seq<Byte>)
    ensures Burned(Burned(mem, a, x), a + |x|, y) == Burned(mem, a, x + y)
  {
    var m, n := Burned(Burned(mem, a, x), a + |x|, y), Burned(mem, a, x + y);
    forall i | 0 <= i < MemBytes ensures m[i] == n[i] {
    }
  }

  lemma BurnNothing(mem: Memory, a: nat)
    ensures Burned(mem, a, []) == mem
  {
  }

  // ---------------------------------------------------------------------------------------------
  // One sector

  /** What the comparison of a sector with its goal finds. */
  datatype Finding = Same | Program(from: nat) | Erase

  ghost predicate Found(have: seq<Byte>, want: seq<Byte>, f: Finding)
    requires |have| == |want|
  {
    match f
    case Same => have == want
    case Program(from) =>
      && from < |want| && from % 4 == 0 && (forall i :: 0 <= i < from ==> have[i] == want[i])
      && (forall i :: 0 <= i < |want| ==> And(have[i], want[i]) == want[i])
    case Erase => exists i :: 0 <= i < |want| && And(have[i], want[i]) != want[i]
  }

  /** Compare up to the first byte that calls for an erase; otherwise remember the word of the first
      byte that differs. */
  method Compare(have: seq<Byte>, want: seq<Byte>) returns (f: Finding)
    requires |have| == |want|
    ensures Found(have, want, f)
    ensures f.Erase? <==> exists i :: 0 <= i < |want| && And(have[i], want[i]) != want[i]
  {
    f := Same;
    for i := 0 to |want|
      invariant !f.Erase?
      invariant forall j :: 0 <= j < i ==> And(have[j], want[j]) == want[j]
      invariant f.Same? ==> have[..i] == want[..i]
      invariant f.Program? ==> f.from < i && f.from % 4 == 0 && forall j :: 0 <= j < f.from ==> have[j] == want[j]
    {
      if And(have[i], want[i]) != want[i] {
        return Erase;
      } else if have[i] != want[i] && f.Same? {
        f := Program(i - i % 4);
        assert forall j :: 0 <= j < i ==> have[..i][j] == want[..i][j];
      }
      assert have[..i + 1] == have[..i] + [have[i]] && want[..i + 1] == want[..i] + [want[i]];
    }
    assert have[..|want|] == have && want[..|want|] == want;
  }

  /** The part of the data that belongs to a sector starting at s: from and to, as device addresses. */
  function From(a: nat, s: nat): nat {
    if a > s then a else s
  }

  function To(a: nat, len: nat, s: nat): nat {
    if a + len > s + SectorBytes then s + SectorBytes else a + len
  }

  /** Every byte wanted from here on can be had by clearing bits. */
  ghost predicate Clearable(mem: Memory, a: nat, data: seq<Byte>, start: nat, e: nat)
    requires a <= start <= e <= a + |data| <= MemBytes
  {
    forall i :: start <= i < e ==> And(mem[i], data[i - a]) == data[i - a]
  }

  function PageOf(n: nat): nat {
    n - n % PageBytes
  }

  /** How much of what is left from p on goes into this page. */
  function Clip(p: nat, end: nat): int
    requires p < end
  {
    if PageOf(end - 1) != PageOf(p) then PageOf(p + PageBytes) - p else end - p
  }

  lemma ClipFits(p: nat, end: nat, s: nat, e: nat)
    requires p < e && p % 4 == 0 && end % 4 == 0 && s % SectorBytes == 0 && s <= p
    requires e == if end > s + SectorBytes then s + SectorBytes else end
    ensures var len := Clip(p, end);
            && 0 < len <= PageBytes && len % 4 == 0 && p + len <= e && p / PageBytes == (p + len - 1) / PageBytes
            && Least(PageOf(p + PageBytes), e) == p + len
  {
    PageStart(p);
    SectorPages(s, p);
    if PageOf(end - 1) == PageOf(p) {
      LastPage(p, end);
      Aligned(p, end);
    } else {
      FurtherPage(p, end - 1);
      WholePage(p);
    }
  }

  lemma LastPage(p: nat, end: nat)
    requires p < end && PageOf(end - 1) == PageOf(p)
    ensures p / PageBytes == (end - 1) / PageBytes && end <= PageOf(p) + PageBytes
  {
    PageStart(p);
    PageStart(end - 1);
  }

  lemma WholePage(p: nat)
    requires p % 4 == 0
    ensures var q := PageOf(p) + PageBytes; p < q <= p + PageBytes && p / PageBytes == (q - 1) / PageBytes && (q - p) % 4 == 0
  {
    PageStart(p);
    WordAligned(p);
    Aligned(p, PageOf(p + PageBytes));
    DivModUnique(PageOf(p) + PageBytes - 1, PageBytes, p / PageBytes, PageBytes - 1);
  }

  lemma FurtherPage(p: nat, n: nat)
    requires p <= n && PageOf(n) != PageOf(p)
    ensures PageOf(p) + PageBytes <= n
  {
    PageStart(p);
    PageStart(n);
  }

  lemma Aligned(p: nat, q: nat)
    requires p % 4 == 0 && q % 4 == 0 && p <= q
    ensures (q - p) % 4 == 0
  {
  }

  lemma PageStart(p: nat)
    ensures PageOf(p) == PageBytes * (p / PageBytes) && PageOf(p + PageBytes) == PageOf(p) + PageBytes
  {
    ModMultiple(p, PageBytes, 1);
  }

  lemma WordAligned(p: nat)
    ensures PageOf(p + PageBytes) % 4 == 0
  {
    PageStart(p);
    DivModUnique(PageOf(p + PageBytes), 4, 64 * (p / PageBytes + 1), 0);
  }

  /** A sector ends where a page ends. */
  lemma SectorPages(s: nat, p: nat)
    requires s % SectorBytes == 0 && s <= p < s + SectorBytes
    ensures PageOf(p) + PageBytes <= s + SectorBytes
  {
  }

  lemma BurnedAt(mem: Memory, a: nat, data: seq<Byte>, start: nat, q: nat, i: nat)
    requires a <= start <= q <= a + |data| <= MemBytes && Clearable(mem, a, data, start, q) && start <= i < q
    ensures Burned(mem, start, data[start - a..q - a])[i] == data[i - a]
  {
  }

  lemma BurnsIn(mem: Memory, a: nat, data: seq<Byte>, start: nat, p: nat, q: nat)
    requires a <= start <= p <= q <= a + |data| <= MemBytes && Clearable(mem, a, data, start, q)
    ensures Burned(mem, start, data[start - a..q - a])[p..q] == data[p - a..q - a]
  {
    var x, y := Burned(mem, start, data[start - a..q - a])[p..q], data[p - a..q - a];
    forall k | 0 <= k < q - p ensures x[k] == y[k] {
      BurnedAt(mem, a, data, start, q, p + k);
    }
  }

  lemma BurnsOn(mem: Memory, a: nat, data: seq<Byte>, start: nat, p: nat, q: nat)
    requires a <= start <= p <= q <= a + |data|
    ensures Burned(Burned(mem, start, data[start - a..p - a]), p, data[p - a..q - a])
            == Burned(mem, start, data[start - a..q - a])
  {
    assert data[start - a..p - a] + data[p - a..q - a] == data[start - a..q - a];
    BurnTwice(mem, start, data[start - a..p - a], data[p - a..q - a]);
  }

  /** One page of the loop, which has brought the device from `mem` to the data up to p. */
  method NextPage(port: Port, a: nat, data: seq<Byte>, ghost mem: Memory, s: nat, ghost start: nat, p: nat, verify: bool)
    returns (ok: bool)
    requires Ready(port) && a % 4 == 0 && |data| % 4 == 0 && p % 4 == 0 && s % SectorBytes == 0
    requires s <= start && a <= start <= p < To(a, |data|, s) && a + |data| <= MemBytes
    requires Clearable(mem, a, data, start, To(a, |data|, s)) && BurnedTo(port.flash.mem, mem, a, data, s, start, p)
    modifies port`flash
    ensures Ready(port) && ok && PageOf(p + PageBytes) > p && PageOf(p + PageBytes) % 4 == 0
    ensures BurnedTo(port.flash.mem, mem, a, data, s, start, PageOf(p + PageBytes))
  {
    PageTurn(a, |data|, s, p);
    ok := BurnPage(port, a, data, mem, start, p, Clip(p, a + |data|), To(a, |data|, s), verify);
  }

  /** What one page takes of the data, and where the next begins. */
  lemma PageTurn(a: nat, len: nat, s: nat, p: nat)
    requires a % 4 == 0 && len % 4 == 0 && p % 4 == 0 && s % SectorBytes == 0 && s <= p < To(a, len, s)
    ensures var n, next := Clip(p, a + len), PageOf(p + PageBytes);
            && 0 < n <= PageBytes && n % 4 == 0 && p + n <= To(a, len, s) && p / PageBytes == (p + n - 1) / PageBytes
            && next > p && next % 4 == 0 && Least(next, To(a, len, s)) == p + n
  {
    PageStart(p);
    WordAligned(p);
    ClipFits(p, a + len, s, To(a, len, s));
  }

  method BurnPage(port: Port, a: nat, data: seq<Byte>, ghost mem: Memory, ghost start: nat, p: nat, len: nat, ghost e: nat,
                  verify: bool) returns (ok: bool)
    requires Ready(port) && a <= start <= p < p + len <= e <= a + |data| <= MemBytes
    requires len <= PageBytes && len % 4 == 0 && p / PageBytes == (p + len - 1) / PageBytes
    requires port.flash.mem == Burned(mem, start, data[start - a..p - a]) && Clearable(mem, a, data, start, e)
    modifies port`flash
    ensures Ready(port) && ok && port.flash.mem == Burned(mem, start, data[start - a..p + len - a])
  {
    ok := ProgramPage(port, p, data[p - a..p + len - a], verify);
    BurnsOn(mem, a, data, start, p, p + len);
    BurnsIn(mem, a, data, start, p, p + len);
  }

  /** The page loop over one sector: it programs exactly the bytes from `start` to where sector or data
      end. */
  method ProgramPages(port: Port, a: nat, data: seq<Byte>, s: nat, start: nat, verify: bool) returns (ok: bool)
    requires Ready(port) && a % 4 == 0 && |data| % 4 == 0 && start % 4 == 0 && s % SectorBytes == 0
    requires s <= start && a <= start < To(a, |data|, s) && a + |data| <= MemBytes
    requires Clearable(port.flash.mem, a, data, start, To(a, |data|, s))
    modifies port`flash
    ensures Ready(port) && ok
    ensures port.flash.mem == Burned(old(port.flash.mem), start, data[start - a..To(a, |data|, s) - a])
  {
    ghost var mem := port.flash.mem;
    BurnStarts(mem, a, data, s, start);
    var p := start;
    while p < s + SectorBytes && p < a + |data|
      invariant Ready(port) && start <= p && p % 4 == 0
      invariant BurnedTo(port.flash.mem, mem, a, data, s, start, p)
      decreases s + SectorBytes - p
    {
      ok := NextPage(port, a, data, mem, s, start, p, verify);
      p := PageOf(p + PageBytes);
    }
    BurnEnds(port.flash.mem, mem, a, data, s, start, p);
    ok := true;
  }

  lemma BurnStarts(mem: Memory, a: nat, data: seq<Byte>, s: nat, start: nat)
    requires a <= start < To(a, |data|, s)
    ensures BurnedTo(mem, mem, a, data, s, start, start)
  {
    BurnNothing(mem, start);
    assert data[start - a..start - a] == [];
  }

  lemma BurnEnds(now: Memory, mem: Memory, a: nat, data: seq<Byte>, s: nat, start: nat, p: nat)
    requires a <= start <= p && start < To(a, |data|, s) <= p && BurnedTo(now, mem, a, data, s, start, p)
    ensures now == Burned(mem, start, data[start - a..To(a, |data|, s) - a])
  {
  }

  /** The device has the data from start to p, or to where sector or data end. */
  ghost predicate BurnedTo(now: Memory, mem: Memory, a: nat, data: seq<Byte>, s: nat, start: nat, p: nat)
    requires a <= start <= p && start <= To(a, |data|, s)
  {
    now == Burned(mem, start, data[start - a..Least(p, To(a, |data|, s)) - a])
  }

  function Least(x: nat, y: nat): nat {
    if x < y then x else y
  }

  // ---------------------------------------------------------------------------------------------
  // A sector brought to its goal

  /** The sector starting at s, and the part of it that is to be written. */
  predicate Sector(a: nat, data: seq<Byte>, s: nat) {
    s % SectorBytes == 0 && s < MemBytes && a + |data| <= MemBytes && From(a, s) <= To(a, |data|, s)
  }

  lemma InSector(s: nat, i: nat)
    requires s % SectorBytes == 0
    ensures i / SectorBytes == s / SectorBytes <==> s <= i < s + SectorBytes
  {
    if s <= i < s + SectorBytes {
      DivModUnique(i, SectorBytes, s / SectorBytes, i - s);
    }
  }

  /** A byte of the untouched sector, or of a sector this step leaves alone. */
  lemma BelowAt(mem: Memory, a: nat, data: seq<Byte>, s: nat, i: nat)
    requires s % SectorBytes == 0 && i < MemBytes
    ensures var k := s / SectorBytes;
            var x, y := WrittenBelow(mem, a, data, k)[i], WrittenBelow(mem, a, data, k + 1)[i];
            if s <= i < s + SectorBytes then x == mem[i] && y == Written(mem, a, data)[i] else x == y
  {
    InSector(s, i);
  }

  /** The goal within a sector that needs no erase. */
  lemma GoalKept(mem: Memory, a: nat, data: seq<Byte>, s: nat, i: nat)
    requires Sector(a, data, s) && s <= i < s + SectorBytes && i < MemBytes
    requires forall j :: From(a, s) <= j < To(a, |data|, s) ==> !Stuck(mem, a, data, j)
    ensures Written(mem, a, data)[i] == if From(a, s) <= i < To(a, |data|, s) then data[i - a] else mem[i]
  {
    InSector(s, i);
    forall j: nat | j / SectorBytes == i / SectorBytes ensures !Stuck(mem, a, data, j) {
      InSector(s, j);
    }
  }

  lemma SectorKept(mem: Memory, a: nat, data: seq<Byte>, s: nat, start: nat, now: Memory)
    requires Sector(a, data, s) && Resumes(mem, a, data, s, start)
    requires now == Burned(WrittenBelow(mem, a, data, s / SectorBytes), start, data[start - a..To(a, |data|, s) - a])
    ensures now == WrittenBelow(mem, a, data, s / SectorBytes + 1)
  {
    var goal := WrittenBelow(mem, a, data, s / SectorBytes + 1);
    forall i | 0 <= i < MemBytes ensures now[i] == goal[i] {
      BelowAt(mem, a, data, s, i);
      if s <= i < s + SectorBytes {
        GoalKept(mem, a, data, s, i);
        assert From(a, s) <= i < To(a, |data|, s) ==> !Stuck(mem, a, data, i);
      }
    }
  }

  lemma SectorRenewed(mem: Memory, a: nat, data: seq<Byte>, s: nat, now: Memory)
    requires Sector(a, data, s)
    requires now == Burned(SectorErased(WrittenBelow(mem, a, data, s / SectorBytes), s), From(a, s),
                           data[From(a, s) - a..To(a, |data|, s) - a])
    requires exists j :: From(a, s) <= j < To(a, |data|, s) && Stuck(mem, a, data, j)
    ensures now == WrittenBelow(mem, a, data, s / SectorBytes + 1)
  {
    var goal := WrittenBelow(mem, a, data, s / SectorBytes + 1);
    var j :| From(a, s) <= j < To(a, |data|, s) && Stuck(mem, a, data, j);
    forall i | 0 <= i < MemBytes ensures now[i] == goal[i] {
      RenewedAt(mem, a, data, s, i, j, WrittenBelow(mem, a, data, s / SectorBytes));
    }
  }

  lemma RenewedAt(mem: Memory, a: nat, data: seq<Byte>, s: nat, i: nat, j: nat, before: Memory)
    requires Sector(a, data, s) && i < MemBytes && before == WrittenBelow(mem, a, data, s / SectorBytes)
    requires From(a, s) <= j < To(a, |data|, s) && Stuck(mem, a, data, j)
    ensures Burned(SectorErased(before, s), From(a, s), data[From(a, s) - a..To(a, |data|, s) - a])[i]
            == WrittenBelow(mem, a, data, s / SectorBytes + 1)[i]
  {
    BelowAt(mem, a, data, s, i);
    if s <= i < s + SectorBytes {
      GoalErased(mem, a, data, s, i, j);
    }
    RenewedByte(before, a, data, s, i, WrittenBelow(mem, a, data, s / SectorBytes + 1)[i]);
  }

  lemma RenewedByte(before: Memory, a: nat, data: seq<Byte>, s: nat, i: nat, goal: Byte)
    requires Sector(a, data, s) && i < MemBytes
    requires goal == if From(a, s) <= i < To(a, |data|, s) then data[i - a]
                     else if s <= i < s + SectorBytes then Ones else before[i]
    ensures Burned(SectorErased(before, s), From(a, s), data[From(a, s) - a..To(a, |data|, s) - a])[i] == goal
  {
    InSector(s, i);
    var x, y := From(a, s), data[From(a, s) - a..To(a, |data|, s) - a];
    if From(a, s) <= i < To(a, |data|, s) {
      assert y[i - x] == data[i - a];
      AndOnes(data[i - a]);
    }
    BurnOne(SectorErased(before, s), x, y, i, goal);
  }

  lemma BurnOne(mem: Memory, x: nat, y: seq<Byte>, i: nat, goal: Byte)
    requires i < MemBytes && goal == if x <= i < x + |y| then And(mem[i], y[i - x]) else mem[i]
    ensures Burned(mem, x, y)[i] == goal
  {
  }

  lemma GoalErased(mem: Memory, a: nat, data: seq<Byte>, s: nat, i: nat, j: nat)
    requires Sector(a, data, s) && s <= i < s + SectorBytes && i < MemBytes
    requires From(a, s) <= j < To(a, |data|, s) && Stuck(mem, a, data, j)
    ensures Written(mem, a, data)[i] == if From(a, s) <= i < To(a, |data|, s) then data[i - a] else Ones
  {
    InSector(s, i);
    InSector(s, j);
    assert NeedsErase(mem, a, data, i / SectorBytes);
  }

  /** The part of a sector to be written, as it is and as it should be. */
  ghost predicate Window(mem: Memory, a: nat, data: seq<Byte>, s: nat, have: seq<Byte>, want: seq<Byte>)
    requires Sector(a, data, s)
  {
    var base, e := From(a, s), To(a, |data|, s);
    && |have| == |want| == e - base
    && forall k :: 0 <= k < e - base ==> have[k] == mem[base + k] && want[k] == data[base + k - a]
  }

  lemma WindowIs(mem: Memory, a: nat, data: seq<Byte>, s: nat, now: Memory)
    requires Sector(a, data, s) && now == WrittenBelow(mem, a, data, s / SectorBytes)
    ensures var base, e := From(a, s), To(a, |data|, s); Window(mem, a, data, s, now[base..e], data[base - a..e - a])
  {
    var base, e := From(a, s), To(a, |data|, s);
    forall k | 0 <= k < e - base ensures now[base..e][k] == mem[base + k] {
      BelowAt(mem, a, data, s, base + k);
    }
  }

  lemma FoundErase(mem: Memory, a: nat, data: seq<Byte>, s: nat, have: seq<Byte>, want: seq<Byte>)
    requires Sector(a, data, s) && Window(mem, a, data, s, have, want) && Found(have, want, Erase)
    ensures exists j :: From(a, s) <= j < To(a, |data|, s) && Stuck(mem, a, data, j)
  {
    var k :| 0 <= k < |want| && And(have[k], want[k]) != want[k];
    assert Stuck(mem, a, data, From(a, s) + k);
  }

  /** Programming may start here: what comes before is in place, and no byte needs an erase. */
  ghost predicate Resumes(mem: Memory, a: nat, data: seq<Byte>, s: nat, start: nat)
    requires Sector(a, data, s)
  {
    && From(a, s) <= start <= To(a, |data|, s)
    && (forall j :: From(a, s) <= j < start ==> mem[j] == data[j - a])
    && (forall j :: From(a, s) <= j < To(a, |data|, s) ==> !Stuck(mem, a, data, j))
  }

  lemma FoundProgram(mem: Memory, a: nat, data: seq<Byte>, s: nat, have: seq<Byte>, want: seq<Byte>, from: nat)
    requires Sector(a, data, s) && Window(mem, a, data, s, have, want) && Found(have, want, Program(from))
    ensures From(a, s) + from < To(a, |data|, s) && Resumes(mem, a, data, s, From(a, s) + from)
  {
    var base := From(a, s);
    forall j | base <= j < To(a, |data|, s)
      ensures !Stuck(mem, a, data, j) && (j < base + from ==> mem[j] == data[j - a])
    {
      assert have[j - base] == mem[base + (j - base)] && want[j - base] == data[base + (j - base) - a];
    }
  }

  lemma ResumesClearable(mem: Memory, a: nat, data: seq<Byte>, s: nat, start: nat, now: Memory)
    requires Sector(a, data, s) && Resumes(mem, a, data, s, start) && now == WrittenBelow(mem, a, data, s / SectorBytes)
    ensures Clearable(now, a, data, start, To(a, |data|, s))
  {
    forall j | start <= j < To(a, |data|, s) ensures And(now[j], data[j - a]) == data[j - a] {
      assert !Stuck(mem, a, data, j);
      BelowAt(mem, a, data, s, j);
    }
  }

  lemma FoundSame(mem: Memory, a: nat, data: seq<Byte>, s: nat, have: seq<Byte>, want: seq<Byte>, now: Memory)
    requires Sector(a, data, s) && Window(mem, a, data, s, have, want) && have == want
    requires now == WrittenBelow(mem, a, data, s / SectorBytes)
    ensures now == WrittenBelow(mem, a, data, s / SectorBytes + 1) && Resumes(mem, a, data, s, To(a, |data|, s))
  {
    var base, e := From(a, s), To(a, |data|, s);
    forall j | base <= j < e ensures mem[j] == data[j - a] && !Stuck(mem, a, data, j) {
      assert have[j - base] == mem[base + (j - base)] && want[j - base] == data[base + (j - base) - a];
      AndSelf(mem[j]);
    }
    assert data[e - a..e - a] == [];
    BurnNothing(now, e);
    SectorKept(mem, a, data, s, e, now);
  }

  lemma RenewClearable(mem: Memory, a: nat, data: seq<Byte>, s: nat)
    requires Sector(a, data, s)
    ensures Clearable(SectorErased(mem, s), a, data, From(a, s), To(a, |data|, s))
  {
    forall i | From(a, s) <= i < To(a, |data|, s) ensures And(SectorErased(mem, s)[i], data[i - a]) == data[i - a] {
      InSector(s, i);
      AndOnes(data[i - a]);
    }
  }

  lemma AlignedEnds(a: nat, len: nat, s: nat)
    requires a % 4 == 0 && len % 4 == 0 && s % SectorBytes == 0 && From(a, s) <= To(a, len, s)
    ensures From(a, s) % 4 == 0 && 4 * ((To(a, len, s) - From(a, s)) / 4) == To(a, len, s) - From(a, s)
  {
    DivModUnique(s, 4, 0x4000 * (s / SectorBytes), 0);
    AlignedSum(a, len);
    AlignedSum(s, SectorBytes);
    Aligned(From(a, s), To(a, len, s));
  }

  lemma AlignedSum(x: nat, y: nat)
    requires x % 4 == 0 && y % 4 == 0
    ensures (x + y) % 4 == 0
  {
  }

  /** Compare, erase if there is no other way, and program what differs. */
  method WriteSector(port: Port, a: nat, data: seq<Byte>, s: nat, verify: bool, ghost mem: Memory)
    returns (ended: bool, ok: bool)
    requires Ready(port) && a % 4 == 0 && |data| % 4 == 0 && Sector(a, data, s)
    requires port.flash.mem == WrittenBelow(mem, a, data, s / SectorBytes)
    modifies port`flash
    ensures ended <==> Blocked(mem, a, data, s / SectorBytes)
    ensures if ended then Ended(port, WrittenBelow(mem, a, data, s / SectorBytes))
            else Ready(port) && ok && port.flash.mem == WrittenBelow(mem, a, data, s / SectorBytes + 1)
  {
    AlignedEnds(a, |data|, s);
    var have, want := ReadWindow(port, a, data, s, mem);
    var f := Compare(have, want);
    match f {
      case Same =>
        FoundSame(mem, a, data, s, have, want, port.flash.mem);
        KeptUnblocked(mem, a, data, s, To(a, |data|, s));
        ended, ok := false, true;
      case Program(from) =>
        FoundProgram(mem, a, data, s, have, want, from);
        AlignedSum(From(a, s), from);
        KeptUnblocked(mem, a, data, s, From(a, s) + from);
        ok := ProgramFrom(port, a, data, s, From(a, s) + from, verify, mem);
        ended := false;
      case Erase =>
        FoundErase(mem, a, data, s, have, want);
        EraseBlocked(mem, a, data, s);
        ended, ok := EraseAndProgram(port, a, data, s, verify, mem);
    }
  }

  /** A sector that programming can bring to its goal needs no erase. */
  lemma KeptUnblocked(mem: Memory, a: nat, data: seq<Byte>, s: nat, start: nat)
    requires Sector(a, data, s) && Resumes(mem, a, data, s, start)
    ensures !Blocked(mem, a, data, s / SectorBytes)
  {
    forall j: nat | j / SectorBytes == s / SectorBytes ensures !Stuck(mem, a, data, j) {
      InSector(s, j);
    }
  }

  lemma EraseBlocked(mem: Memory, a: nat, data: seq<Byte>, s: nat)
    requires Sector(a, data, s)
    requires exists j :: From(a, s) <= j < To(a, |data|, s) && Stuck(mem, a, data, j)
    ensures Blocked(mem, a, data, s / SectorBytes) <==> s >= EraseLimit
  {
    var j :| From(a, s) <= j < To(a, |data|, s) && Stuck(mem, a, data, j);
    InSector(s, j);
  }

  method ReadWindow(port: Port, a: nat, data: seq<Byte>, s: nat, ghost mem: Memory) returns (have: seq<Byte>, want: seq<Byte>)
    requires Ready(port) && a % 4 == 0 && |data| % 4 == 0 && Sector(a, data, s)
    requires port.flash.mem == WrittenBelow(mem, a, data, s / SectorBytes)
    modifies port`flash
    ensures Ready(port) && port.flash.mem == old(port.flash.mem) && Window(mem, a, data, s, have, want)
  {
    var base, e := From(a, s), To(a, |data|, s);
    AlignedEnds(a, |data|, s);
    have := ReadBytes(port, base, (e - base) / 4);
    want := data[base - a..e - a];
    WindowIs(mem, a, data, s, port.flash.mem);
  }

  method ProgramFrom(port: Port, a: nat, data: seq<Byte>, s: nat, start: nat, verify: bool, ghost mem: Memory)
    returns (ok: bool)
    requires Ready(port) && a % 4 == 0 && |data| % 4 == 0 && start % 4 == 0 && Sector(a, data, s)
    requires start < To(a, |data|, s) && Resumes(mem, a, data, s, start)
    requires port.flash.mem == WrittenBelow(mem, a, data, s / SectorBytes)
    modifies port`flash
    ensures Ready(port) && ok && port.flash.mem == WrittenBelow(mem, a, data, s / SectorBytes + 1)
  {
    ResumesClearable(mem, a, data, s, start, port.flash.mem);
    ok := ProgramPages(port, a, data, s, start, verify);
    SectorKept(mem, a, data, s, start, port.flash.mem);
  }

  method EraseAndProgram(port: Port, a: nat, data: seq<Byte>, s: nat, verify: bool, ghost mem: Memory)
    returns (ended: bool, ok: bool)
    requires Ready(port) && a % 4 == 0 && |data| % 4 == 0 && Sector(a, data, s) && From(a, s) % 4 == 0
    requires port.flash.mem == WrittenBelow(mem, a, data, s / SectorBytes)
    requires exists j :: From(a, s) <= j < To(a, |data|, s) && Stuck(mem, a, data, j)
    modifies port`flash
    ensures ended <==> s >= EraseLimit
    ensures if ended then Ended(port, WrittenBelow(mem, a, data, s / SectorBytes))
            else Ready(port) && ok && port.flash.mem == WrittenBelow(mem, a, data, s / SectorBytes + 1)
  {
    ended, ok := EraseSector(port, s, verify);
    if !ended {
      RenewClearable(old(port.flash.mem), a, data, s);
      ok := ProgramPages(port, a, data, s, From(a, s), verify);
      SectorRenewed(mem, a, data, s, port.flash.mem);
    }
  }

  // ---------------------------------------------------------------------------------------------
  // The whole write

  function SectorOf(n: nat): nat {
    n - n % SectorBytes
  }

  lemma BelowStart(mem: Memory, a: nat, data: seq<Byte>)
    ensures WrittenBelow(mem, a, data, a / SectorBytes) == mem
  {
    var m := WrittenBelow(mem, a, data, a / SectorBytes);
    forall i | 0 <= i < MemBytes ensures m[i] == mem[i] {
      if i / SectorBytes < a / SectorBytes {
        OtherSector(mem, a, data, i);
      }
    }
  }

  lemma BelowEnd(mem: Memory, a: nat, data: seq<Byte>, n: nat)
    requires a + |data| <= n * SectorBytes
    ensures WrittenBelow(mem, a, data, n) == Written(mem, a, data)
  {
    var m, w := WrittenBelow(mem, a, data, n), Written(mem, a, data);
    forall i | 0 <= i < MemBytes ensures m[i] == w[i] {
      if i / SectorBytes >= n {
        PastSector(i, n);
        OtherSector(mem, a, data, i);
      }
    }
  }

  lemma PastSector(i: nat, n: nat)
    requires i / SectorBytes >= n
    ensures n * SectorBytes <= SectorBytes * (i / SectorBytes) <= i
  {
    MulMono(SectorBytes, n, i / SectorBytes);
  }

  lemma NoData(mem: Memory, a: nat, data: seq<Byte>, k: nat)
    requires k < a / SectorBytes || a + |data| <= SectorBytes * k
    ensures !NeedsErase(mem, a, data, k)
  {
    forall j: nat | j / SectorBytes == k ensures !Stuck(mem, a, data, j) {
    }
  }

  /** A sector the data do not reach keeps what it has. */
  lemma OtherSector(mem: Memory, a: nat, data: seq<Byte>, i: nat)
    requires i < MemBytes
    requires i / SectorBytes < a / SectorBytes || a + |data| <= SectorBytes * (i / SectorBytes)
    ensures Written(mem, a, data)[i] == mem[i]
  {
    NoData(mem, a, data, i / SectorBytes);
  }

  /** The loop over sectors, in device addresses: it starts in the sector of the first byte, visits only
      sectors that hold some of the data or that it can leave alone, and ends past the last byte. */
  lemma LoopStart(a: nat, len: nat)
    ensures var s, end := SectorOf(FlashBase + a), SectorOf(FlashBase + a + len + SectorBytes - 1);
            && s == FlashBase + SectorOf(a) && end == FlashBase + SectorOf(a + len + SectorBytes - 1)
            && s <= end && (s - FlashBase) % SectorBytes == 0
            && (s - FlashBase) / SectorBytes == a / SectorBytes
  {
    SectorStart(a);
    SectorStart(a + len + SectorBytes - 1);
    ModMultiple(a, SectorBytes, 256);
    ModMultiple(a + len + SectorBytes - 1, SectorBytes, 256);
  }

  lemma SectorStart(n: nat)
    ensures SectorOf(n) == SectorBytes * (n / SectorBytes) && SectorOf(n) % SectorBytes == 0
    ensures SectorOf(n) / SectorBytes == n / SectorBytes && SectorOf(n + SectorBytes - 1) >= n
  {
    DivModUnique(SectorOf(n), SectorBytes, n / SectorBytes, 0);
  }

  lemma LoopSector(a: nat, data: seq<Byte>, s: nat)
    requires s % SectorBytes == 0 && SectorOf(a) <= s < SectorOf(a + |data| + SectorBytes - 1)
    requires a + |data| <= MemBytes
    ensures Sector(a, data, s) && (s + SectorBytes) / SectorBytes == s / SectorBytes + 1
    ensures (s + SectorBytes) % SectorBytes == 0 && s + SectorBytes <= SectorOf(a + |data| + SectorBytes - 1)
  {
    SectorStart(a + |data| + SectorBytes - 1);
    SectorStart(a);
    DivModUnique(s + SectorBytes, SectorBytes, s / SectorBytes + 1, 0);
  }

  /** All sectors from the first byte's up to this one are written. */
  ghost predicate WrittenTo(port: Port, mem: Memory, a: nat, data: seq<Byte>, s: nat)
    reads port
  {
    && Ready(port) && s % SectorBytes == 0 && SectorOf(a) <= s
    && port.flash.mem == WrittenBelow(mem, a, data, s / SectorBytes) && NoneBlocked(mem, a, data, s / SectorBytes)
  }

  /** The device has ended the program at this sector, the first it will not erase; those before it are written. */
  ghost predicate StoppedAt(port: Port, mem: Memory, a: nat, data: seq<Byte>, sector: nat)
    reads port
  {
    && Blocked(mem, a, data, sector) && NoneBlocked(mem, a, data, sector)
    && Ended(port, WrittenBelow(mem, a, data, sector))
  }

  /** The loop over sectors has come to this one, in bus addresses. */
  ghost predicate Going(port: Port, mem: Memory, a: nat, data: seq<Byte>, s: nat, end: nat)
    reads port
  {
    FlashBase <= s <= end && end == FlashBase + SectorOf(a + |data| + SectorBytes - 1)
    && WrittenTo(port, mem, a, data, s - FlashBase)
  }

  method NextSector(port: Port, a: nat, data: seq<Byte>, s: nat, verify: bool, ghost mem: Memory, ghost end: nat)
    returns (ended: bool, ok: bool, ghost at: nat)
    requires a % 4 == 0 && |data| % 4 == 0 && a + |data| <= MemBytes && Going(port, mem, a, data, s, end) && s < end
    modifies port`flash
    ensures if ended then StoppedAt(port, mem, a, data, at) && Blocks(mem, a, data)
            else ok && Going(port, mem, a, data, s + SectorBytes, end)
  {
    at := (s - FlashBase) / SectorBytes;
    LoopSector(a, data, s - FlashBase);
    ended, ok := WriteSector(port, a, data, s - FlashBase, verify, mem);
    if ended {
      BlocksAt(mem, a, data, at);
    }
  }

  lemma StartsGoing(port: Port, a: nat, data: seq<Byte>)
    requires Ready(port)
    ensures Going(port, port.flash.mem, a, data, SectorOf(FlashBase + a), SectorOf(FlashBase + a + |data| + SectorBytes - 1))
  {
    LoopStart(a, |data|);
    NoneWritten(port, a, data, SectorOf(a));
  }

  lemma NoneWritten(port: Port, a: nat, data: seq<Byte>, s: nat)
    requires Ready(port) && s == SectorOf(a) && s % SectorBytes == 0 && s / SectorBytes == a / SectorBytes
    ensures WrittenTo(port, port.flash.mem, a, data, s)
  {
    BelowStart(port.flash.mem, a, data);
    forall k: nat | k < s / SectorBytes ensures !NeedsErase(port.flash.mem, a, data, k) {
      NoData(port.flash.mem, a, data, k);
    }
  }

  lemma AllWritten(port: Port, mem: Memory, a: nat, data: seq<Byte>, s: nat)
    requires Going(port, mem, a, data, FlashBase + s, FlashBase + s)
    ensures port.flash.mem == Written(mem, a, data) && !Blocks(mem, a, data)
  {
    SectorStart(a + |data|);
    BelowEnd(mem, a, data, s / SectorBytes);
    forall k: nat ensures !Blocked(mem, a, data, k) {
      if k >= s / SectorBytes {
        MulMono(SectorBytes, s / SectorBytes, k);
        NoData(mem, a, data, k);
      }
    }
  }

  /** The loop over all sectors that hold some of the data; it goes on until the device ends the program. */
  method WriteSectors(port: Port, addr: nat, data: seq<Byte>, verify: bool) returns (ended: bool, ok: bool, ghost at: nat)
    requires Ready(port) && FlashBase <= addr && addr + |data| <= FlashBase + MemBytes
    requires addr % 4 == 0 && |data| % 4 == 0
    modifies port`flash
    ensures var mem, a := old(port.flash.mem), addr - FlashBase;
            && (ended <==> Blocks(mem, a, data))
            && (if ended then StoppedAt(port, mem, a, data, at)
                else ok && Ready(port) && port.flash.mem == Written(mem, a, data))
  {
    ghost var mem := port.flash.mem;
    var a := addr - FlashBase;
    var s := SectorOf(addr);
    var end := SectorOf(addr + |data| + SectorBytes - 1);
    StartsGoing(port, a, data);
    while s < end
      invariant Going(port, mem, a, data, s, end)
    {
      ended, ok, at := NextSector(port, a, data, s, verify, mem, end);
      if ended {
        return;
      }
      s := s + SectorBytes;
    }
    AllWritten(port, mem, a, data, s - FlashBase);
    return false, true, 0;
  }

  // ---------------------------------------------------------------------------------------------
  // Identification

  /** The bytes of the device's identity, in the order they come out. */
  function IdByte(k: nat): Byte {
    if k == 1 then 0x01 else if k == 2 then 0x15 else if k == 3 then 0x23 else if k == 4 then 0x40 else 0
  }

  /** k bytes into a read of the identity. */
  predicate Naming(c: Chip, k: nat) {
    Serial(c) && Quiet(c) && c.ctl.state.ReadId? && c.count == 8 * k && 1 <= k <= 5 && c.oreg % 256 == IdByte(k)
  }

  lemma NameStarts(c: Chip)
    requires Quiet(c) && Offline(c)
    ensures Serial(c) && Naming(Byted(Flash(), c, 0x9f), 1) && Byted(Flash(), c, 0x9f).mem == c.mem
  {
    CommandByte(c, 0x9f);
    Loaded(c.oreg, 0x01);
  }

  lemma NameOn(c: Chip, k: nat)
    requires Naming(c, k) && k <= 4
    ensures var d := Byted(Flash(), c, 0); Naming(d, k + 1) && d.mem == c.mem && d.oreg / 256 == c.oreg
  {
    DataByte(c, 0);
    Loaded(c.oreg, IdByte(k + 1));
    NameOut(c.mem, c.ctl, k, 256 * c.ireg);
  }

  lemma NameOut(mem: Memory, c: Control, k: nat, r: nat)
    requires c.state.ReadId? && 1 <= k <= 4
    ensures Data(c, 8 * k + 8, r) == c && DataOut(mem, c, 8 * k + 8, r) == [IdByte(k + 1)]
  {
  }

  method NextName(port: Port, k: nat) returns (v: nat)
    requires port.logic == Flash() && Naming(port.flash, k) && k <= 4
    modifies port`flash
    ensures Naming(port.flash, k + 1) && port.flash.mem == old(port.flash.mem) && v == IdByte(k)
  {
    NameOn(port.flash, k);
    FlashPassive();
    v := port.Send(0);
  }

  class Driver {
    const port: Port
    var id: nat

    /** The identity is unknown, or right. */
    ghost predicate Valid()
      reads this, port
    {
      Ready(port) && id in {0, DevId}
    }

    constructor (port: Port)
      requires Ready(port)
      ensures this.port == port && id == 0 && Valid()
    {
      this.port := port;
      id := 0;
    }

    /** Read the identity once; from then on it is known.  The memory is left alone. */
    method FlashId() returns (r: nat)
      requires Valid()
      modifies this`id, port`flash
      ensures Valid() && r == id == 0x0115_2340 && port.flash.mem == old(port.flash.mem)
    {
      if id != 0 {
        return id;
      }
      TakeOffline(port);
      NameStarts(port.flash);
      FlashPassive();
      var _ := port.Send(0x9f);
      r := 0;
      var v := NextName(port, 1);
      r := v;
      v := NextName(port, 2);
      r := 256 * r + v;
      v := NextName(port, 3);
      r := 256 * r + v;
      v := NextName(port, 4);
      r := 256 * r + v;
      id := r;
      PlaceOnline(port);
    }

    /** Write any word-aligned stretch of the flash, through however many sectors and pages it takes.
        Unless some sector above the lower quarter of the memory needs an erase, it succeeds, and leaves the
        data in its place; every other byte is as it was, or ones if and only if some byte of the data in
        its sector has a bit to set that only an erase can set.  Otherwise the device ends the program at
        the first such sector, with all before it written and the rest as it was. */
    method Write(addr: nat, data: seq<Byte>, verify: bool) returns (ended: bool, ok: bool, ghost at: nat)
      requires Valid() && FlashBase <= addr && addr + |data| <= FlashBase + MemBytes
      requires addr % 4 == 0 && |data| % 4 == 0
      modifies this`id, port`flash
      ensures var mem, a := old(port.flash.mem), addr - FlashBase;
              && (ended <==> Blocks(mem, a, data))
              && (if ended then StoppedAt(port, mem, a, data, at)
                  else ok && Valid() && port.flash.mem == Written(mem, a, data))
    {
      var _ := FlashId();
      ended, ok, at := WriteSectors(port, addr, data, verify);
      if !ended {
        TakeOffline(port);
        WriteDisable(port);
        PlaceOnline(port);
      }
    }
  }

  /** For instance four bytes of ones at 0x1400000, over a byte that is zero. */
  lemma QuarterBlocks(mem: Memory)
    requires mem[EraseLimit] == 0
    ensures Blocked(mem, 0x140_0000 - FlashBase, [Ones, Ones, Ones, Ones], 64)
  {
    assert Stuck(mem, EraseLimit, [Ones, Ones, Ones, Ones], EraseLimit);
  }

  /** A device that has just been powered up, and the driver for it. */
  method Begin(pmem: Page, addr: nat, count: nat) returns (d: Driver)
    ensures fresh(d) && fresh(d.port) && d.Valid() && d.port.flash.mem == Blank()
  {
    var port := new Port(Flash(), PowerUp(pmem, addr, count));
    PlaceOnline(port);
    d := new Driver(port);
  }

  /** What a caller may rely on, byte by byte: the data are there, no other byte has gained or lost
      anything unless its whole sector was erased, and nothing is erased when programming suffices. */
  lemma WrittenMeans(mem: Memory, a: nat, data: seq<Byte>, i: nat)
    requires a + |data| <= MemBytes && i < MemBytes
    ensures a <= i < a + |data| ==> Written(mem, a, data)[i] == data[i - a]
    ensures !(a <= i < a + |data|) ==> Written(mem, a, data)[i] in {mem[i], Ones}
    ensures !(a <= i < a + |data|) && Written(mem, a, data)[i] != mem[i] ==>
              exists j :: j / SectorBytes == i / SectorBytes && a <= j < a + |data| && And(mem[j], data[j - a]) != data[j - a]
    ensures (forall j :: a <= j < a + |data| ==> And(mem[j], data[j - a]) == data[j - a]) ==>
              Written(mem, a, data) == Burned(mem, a, data)
  {
    if !(a <= i < a + |data|) && Written(mem, a, data)[i] != mem[i] {
      var j :| j / SectorBytes == i / SectorBytes && Stuck(mem, a, data, j);
      assert And(mem[j], data[j - a]) != data[j - a];
    }
  }
}
