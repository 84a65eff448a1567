/** The blinking characters of fish/blink.S and fish/fish.c: a linked list threaded through a pool of slots. */
module Blink {
  import opened Bytes

  const POOL := 2000
  const NULL := -1

  type word16 = x: int | 0 <= x < 0x1_0000

  /** What a blinker is, its place in the list apart. */
  datatype Blinker = Blinker(location: word16, onChar: byte, offChar: byte, onLength: word16, offLength: word16,
                             countdown: word16, status: word16)

  // ---------------------------------------------------------------------
  // Timing
  // ---------------------------------------------------------------------

  /** `decw`. */
  function Decremented(w: word16): (r: word16) {
    if w == 0 then 0xFFFF else w - 1
  }

  /** The signed comparison `jg` of a word with 0. */
  predicate Positive(w: word16) {
    0 < w < 0x8000
  }

  predicate IsOn(b: Blinker) {
    b.status % 2 == 1
  }

  /** `xorw $1`. */
  function Toggled(status: word16): (r: word16) {
    if status % 2 == 1 then status - 1 else status + 1
  }

  /** Only the low bit changes. */
  lemma ToggledIs(status: word16)
    ensures Toggled(status) / 2 == status / 2 && Toggled(status) % 2 != status % 2
  {
  }

  predicate Expires(b: Blinker) {
    !Positive(Decremented(b.countdown))
  }

  /** One tick for one blinker. */
  function Ticked(b: Blinker): (r: Blinker) {
    if !Expires(b) then b.(countdown := Decremented(b.countdown))
    else b.(countdown := if IsOn(b) then b.offLength else b.onLength, status := Toggled(b.status))
  }

  ghost function TickedTimes(b: Blinker, n: nat): (r: Blinker) {
    if n == 0 then b else Ticked(TickedTimes(b, n - 1))
  }

  /** How many ticks a countdown lasts: the decrement wraps and the comparison is signed, so that 0 and
      anything beyond 0x8000 last one tick. */
  ghost function Lasts(w: word16): (n: nat)
    ensures n > 0
  {
    if 1 <= w <= 0x8000 then w else 1
  }

  /** A blinker as `add` sets it up. */
  ghost predicate JustAdded(b: Blinker) {
    b.status == 1 && b.countdown == b.onLength
  }

  lemma TickCounts(b: Blinker)
    ensures Expires(b) <==> Lasts(b.countdown) == 1
    ensures !Expires(b) ==> Lasts(Ticked(b).countdown) == Lasts(b.countdown) - 1
  {
  }

  /** `r` is blinker `b` in the given phase of its period: on in the first part, off in the second,
      with a countdown that lasts to the end of the part. */
  ghost predicate InPhase(r: Blinker, b: Blinker, phase: nat) {
    var on, off := Lasts(b.onLength), Lasts(b.offLength);
    && phase < on + off
    && r == b.(countdown := r.countdown, status := r.status)
    && r.status == (if phase < on then 1 else 0)
    && Lasts(r.countdown) == (if phase < on then on - phase else on + off - phase)
  }

  lemma TickMovesPhase(r: Blinker, b: Blinker, phase: nat)
    requires InPhase(r, b, phase)
    ensures InPhase(Ticked(r), b, if phase + 1 == Lasts(b.onLength) + Lasts(b.offLength) then 0 else phase + 1)
  {
    TickCounts(r);
  }

  /** The phase reached after `n` ticks. */
  ghost function Phase(n: nat, period: nat): (phase: nat)
    requires period > 0
    ensures phase < period
  {
    if n == 0 then 0 else var prev := Phase(n - 1, period); if prev + 1 == period then 0 else prev + 1
  }

  lemma {:induction false} WholePeriods(n: nat, period: nat) returns (q: nat)
    requires period > 0
    ensures n == q * period + Phase(n, period)
  {
    if n == 0 {
      q := 0;
    } else {
      q := WholePeriods(n - 1, period);
      if Phase(n, period) == 0 {
        assert (q + 1) * period == q * period + period;
        q := q + 1;
      }
    }
  }

  lemma PhaseIsMod(n: nat, period: nat)
    requires period > 0
    ensures Phase(n, period) == n % period
  {
    var q := WholePeriods(n, period);
    ModIs(n, period, q, Phase(n, period));
  }

  /** After `n` ticks a blinker is in phase `n mod (on + off)` of its period (`PhaseIsMod`),
      whatever its 16-bit lengths. */
  lemma {:induction false} PhaseAfter(b: Blinker, n: nat)
    requires JustAdded(b)
    ensures InPhase(TickedTimes(b, n), b, Phase(n, Lasts(b.onLength) + Lasts(b.offLength)))
  {
    if n > 0 {
      PhaseAfter(b, n - 1);
      TickMovesPhase(TickedTimes(b, n - 1), b, Phase(n - 1, Lasts(b.onLength) + Lasts(b.offLength)));
    }
  }

  lemma ModIs(n: nat, d: nat, q: nat, r: nat)
    requires r < d && n == q * d + r
    ensures n % d == r
  {
    var q', r' := n / d, n % d;
    assert n == q' * d + r';
    if q > q' {
      Larger(q, q', d);
    } else if q < q' {
      Larger(q', q, d);
    }
  }

  lemma Larger(a: nat, b: nat, d: nat)
    requires a > b
    ensures a * d >= b * d + d
  {
    assert a * d == (b + 1) * d + (a - b - 1) * d;
  }

  /** A length that the countdown lasts for. */
  ghost predicate Exact(length: word16) {
    1 <= length <= 0x8000
  }

  /** After `n` ticks the blinker is on exactly in the first part of its period. */
  ghost predicate OnAt(b: Blinker, n: nat)
    requires b.onLength + b.offLength > 0
  {
    IsOn(TickedTimes(b, n)) <==> n % (b.onLength + b.offLength) < b.onLength
  }

  lemma ActualPhase(b: Blinker, n: nat)
    requires JustAdded(b)
    ensures IsOn(TickedTimes(b, n)) <==> n % (Lasts(b.onLength) + Lasts(b.offLength)) < Lasts(b.onLength)
  {
    PhaseAfter(b, n);
    PhaseIsMod(n, Lasts(b.onLength) + Lasts(b.offLength));
  }

  /** `n mod (on + off) < on` says when a blinker is on, for all `n`, exactly for lengths from 1 to 0x8000. */
  lemma OnIff(b: Blinker)
    requires JustAdded(b) && b.onLength + b.offLength > 0
    ensures (forall n: nat :: OnAt(b, n)) <==> Exact(b.onLength) && Exact(b.offLength)
  {
    if Exact(b.onLength) && Exact(b.offLength) {
      forall n: nat
        ensures OnAt(b, n)
      {
        ActualPhase(b, n);
      }
    } else {
      var n := WrongAt(b);
      assert !OnAt(b, n);
    }
  }

  /** Where it goes wrong for any other length. */
  lemma WrongAt(b: Blinker) returns (n: nat)
    requires JustAdded(b) && b.onLength + b.offLength > 0 && !(Exact(b.onLength) && Exact(b.offLength))
    ensures !OnAt(b, n)
  {
    var on, off := Lasts(b.onLength), Lasts(b.offLength);
    if b.onLength == 0 {
      n := 0;
      ActualPhase(b, 0);
    } else if b.onLength > 0x8000 {
      n := 1;
      ActualPhase(b, 1);
      ModIs(1, on + off, 0, 1);
      ModIs(1, b.onLength + b.offLength, 0, 1);
    } else if b.offLength == 0 {
      n := on;
      ActualPhase(b, on);
      ModIs(on, on + off, 0, on);
    } else {
      n := on + 1;
      ActualPhase(b, on + 1);
      ModIs(on + 1, on + off, 1, 0);
      ModIs(on + 1, b.onLength + b.offLength, 0, on + 1);
    }
  }

  ghost predicate SameTimer(a: Blinker, b: Blinker) {
    a.onLength == b.onLength && a.offLength == b.offLength && a.countdown == b.countdown && a.status == b.status
  }

  /** Blinkers with the same timer stay in step. */
  lemma {:induction false} StayInStep(a: Blinker, b: Blinker, n: nat)
    requires SameTimer(a, b)
    ensures SameTimer(TickedTimes(a, n), TickedTimes(b, n))
  {
    if n > 0 {
      StayInStep(a, b, n - 1);
    }
  }

  // ---------------------------------------------------------------------
  // The list as its callers see it, most recent blinker first
  // ---------------------------------------------------------------------

  type Blinkers = seq<Blinker>

  /** Addresses and characters, in the order drawn. */
  type Pokes = seq<(int, byte)>

  /** The place of the first blinker at a location; the length if there is none. */
  ghost function Found(bs: Blinkers, location: word16): (k: nat)
    ensures k <= |bs| && (k < |bs| ==> bs[k].location == location)
    ensures forall j | 0 <= j < k :: bs[j].location != location
  {
    if bs == [] || bs[0].location == location then 0 else 1 + Found(bs[1..], location)
  }

  ghost function Started(b: Blinker): (r: Blinker) {
    b.(status := 1, countdown := b.onLength)
  }

  ghost function Removed(bs: Blinkers, location: word16): (r: Blinkers) {
    var k := Found(bs, location);
    if k < |bs| then bs[..k] + bs[k + 1..] else bs
  }

  ghost function WithTimerOf(b: Blinker, a: Blinker): (r: Blinker) {
    b.(onLength := a.onLength, offLength := a.offLength, countdown := a.countdown, status := a.status)
  }

  /** The character a blinker shows in its status. */
  ghost function Appearance(b: Blinker): (c: byte) {
    if IsOn(b) then b.onChar else b.offChar
  }

  ghost function Synced(bs: Blinkers, from: word16, to: word16): (r: Blinkers) {
    var i, j := Found(bs, from), Found(bs, to);
    if i < |bs| && j < |bs| then bs[j := WithTimerOf(bs[j], bs[i])] else bs
  }

  /** The data a search at a location gives. */
  ghost function Data(bs: Blinkers, location: word16): (b: Option<Blinker>) {
    if Found(bs, location) < |bs| then Some(bs[Found(bs, location)]) else None
  }

  /** After a removal every other location is found as before ... */
  lemma RemovedKeepsOthers(bs: Blinkers, location: word16, other: word16)
    requires other != location
    ensures Data(Removed(bs, location), other) == Data(bs, other)
  {
    var k, f, r := Found(bs, location), Found(bs, other), Removed(bs, location);
    if k < |bs| {
      assert forall j | 0 <= j < |r| :: r[j] == if j < k then bs[j] else bs[j + 1];
      FoundIs(r, other, if f < k then f else f - 1);
    }
  }

  /** ... and at this one the next older blinker; with none there the list stays as it is. */
  lemma RemovedFindsOlder(bs: Blinkers, location: word16, k: nat, older: Blinkers, r: Blinkers)
    requires k == Found(bs, location) && r == Removed(bs, location) && older == if k < |bs| then bs[k + 1..] else []
    ensures Data(r, location) == Data(older, location)
    ensures if k < |bs| then |r| == |bs| - 1 else r == bs
  {
    if k < |bs| {
      FoundBehind(bs[..k], older, r, location, Found(older, location));
    }
  }

  lemma FoundBehind(front: Blinkers, rest: Blinkers, r: Blinkers, location: word16, f: nat)
    requires (forall j | 0 <= j < |front| :: front[j].location != location) && r == front + rest
    requires f <= |rest| && (f < |rest| ==> rest[f].location == location)
    requires forall j | 0 <= j < f :: rest[j].location != location
    ensures Found(r, location) == |front| + f && (f < |rest| ==> r[|front| + f] == rest[f])
  {
    forall j | 0 <= j < |front| + f
      ensures r[j].location != location
    {
      assert r[j] == if j < |front| then front[j] else rest[j - |front|];
    }
    FoundIs(r, location, |front| + f);
  }

  /** A sync gives the second blinker the timer of the first, and changes nothing else of it, nor any other blinker. */
  lemma SyncedOnlyTimer(bs: Blinkers, from: word16, to: word16, k: nat)
    requires k < |bs|
    ensures |Synced(bs, from, to)| == |bs|
    ensures var i, j, r := Found(bs, from), Found(bs, to), Synced(bs, from, to);
            && (k != j || i == |bs| ==> r[k] == bs[k])
            && (i < |bs| && k == j ==>
                  && r[k].location == bs[k].location && r[k].onChar == bs[k].onChar && r[k].offChar == bs[k].offChar
                  && r[k].onLength == bs[i].onLength && r[k].offLength == bs[i].offLength
                  && r[k].countdown == bs[i].countdown && r[k].status == bs[i].status)
  {
  }

  ghost function TickedAll(bs: Blinkers): (r: Blinkers) {
    seq(|bs|, k requires 0 <= k < |bs| => Ticked(bs[k]))
  }

  // ---------------------------------------------------------------------
  // The pool
  // ---------------------------------------------------------------------

  /** A `struct mp1_blink_struct` of the pool; `next` is the index of the next slot of the list. */
  datatype Slot = Slot(b: Blinker, next: int)

  const ZERO := Slot(Blinker(0, 0, 0, 0, 0, 0, 0), NULL)

  /** The slot at place `k` of the list is in use and leads to the next one. */
  ghost predicate Linked(pool: seq<Slot>, order: seq<nat>, k: nat)
    requires k < |order|
  {
    order[k] < |pool| && pool[order[k]].b.location != 0 && pool[order[k]].next == Follower(order, k)
  }

  ghost predicate Distinct(s: seq<nat>) {
    forall i, j | 0 <= i < j < |s| :: s[i] != s[j]
  }

  /** The list runs through the slots `order`, which are distinct, exactly those with a nonzero location;
      all other slots are zero. */
  ghost predicate Threaded(pool: seq<Slot>, head: int, order: seq<nat>) {
    && |pool| == POOL
    && (forall k | 0 <= k < |order| :: order[k] < POOL)
    && head == First(order)
    && (forall k: nat | k < |order| :: Linked(pool, order, k))
    && Distinct(order)
    && (forall p: nat | p < POOL && p !in order :: pool[p] == ZERO)
  }

  ghost function First(order: seq<nat>): (p: int) {
    if order == [] then NULL else order[0]
  }

  ghost function Follower(order: seq<nat>, k: nat): (p: int) {
    if k + 1 < |order| then order[k + 1] else NULL
  }

  ghost function Listed(pool: seq<Slot>, order: seq<nat>): (bs: Blinkers)
    requires forall k | 0 <= k < |order| :: order[k] < |pool|
    ensures |bs| == |order|
  {
    seq(|order|, k requires 0 <= k < |order| => pool[order[k]].b)
  }

  class BlinkList {
    const pool: array<Slot>
    var head: int
    ghost var order: seq<nat>

    ghost predicate Valid()
      reads this, pool
    {
      Threaded(pool[..], head, order)
    }

    ghost function Contents(): (bs: Blinkers)
      requires Valid()
      reads this, pool
    {
      Listed(pool[..], order)
    }

    /** `main` clears the pool. */
    constructor ()
      ensures Valid() && Contents() == []
    {
      pool := new Slot[POOL](_ => ZERO);
      head := NULL;
      order := [];
    }

    /** `mp1_malloc`: the first slot with location 0. */
    method Malloc() returns (p: int)
      requires pool.Length == POOL
      ensures p == NULL ==> forall i | 0 <= i < POOL :: pool[i].b.location != 0
      ensures p != NULL ==> 0 <= p < POOL && pool[p].b.location == 0 && forall i | 0 <= i < p :: pool[i].b.location != 0
    {
      for i := 0 to POOL
        invariant forall j | 0 <= j < i :: pool[j].b.location != 0
      {
        if pool[i].b.location == 0 {
          return i;
        }
      }
      return NULL;
    }

    /** `mp1_find_helper`. */
    method FindHelper(location: word16) returns (p: int, ghost k: nat)
      requires Valid()
      ensures k == Found(Contents(), location)
      ensures p == if k < |order| then order[k] else NULL
    {
      p, k := head, 0;
      while p != NULL
        invariant k <= |order| && p == if k < |order| then order[k] else NULL
        invariant forall j | 0 <= j < k :: pool[order[j]].b.location != location
        decreases |order| - k
      {
        assert Linked(pool[..], order, k);
        if pool[p].b.location == location {
          break;
        }
        p := pool[p].next;
        k := k + 1;
      }
      assert forall j | 0 <= j < |order| :: Contents()[j] == pool[order[j]].b;
      FoundIs(Contents(), location, k);
    }

    /** `mp1_ioctl_add`: the new blinker goes to the front and is drawn, unless its location is off the screen or the
        pool is full. A blinker at location 0 goes in too, but its slot still looks free. */
    method Add(user: Blinker) returns (r: int, pokes: Pokes)
      requires Valid()
      modifies this, pool
      ensures r == 0 || r == -1
      ensures r == -1 <==> user.location >= 2000 || |old(Contents())| == 2000
      ensures r == -1 ==> Valid() && Contents() == old(Contents()) && pokes == []
      ensures r == 0 ==> pokes == [(2 * user.location, user.onChar)]
      ensures r == 0 && user.location != 0 ==> Valid() && Contents() == [Started(user)] + old(Contents())
      ensures r == 0 && user.location == 0 ==> forall o :: !Threaded(pool[..], head, o)
    {
      if user.location >= POOL {
        return -1, [];
      }
      ghost var before := pool[..];
      var p := Insert(user);
      if p == NULL {
        AllUsed(before, head, order);
        return -1, [];
      }
      SomeFree(before, old(head), order, p);
      if user.location != 0 {
        FrontThreaded(before, order, p, pool[p], pool[..], [p as nat] + order);
        order := [p as nat] + order;
      } else {
        forall o
          ensures !Threaded(pool[..], head, o)
        {
          HeadInUse(pool[..], head, o);
        }
      }
      return 0, [(2 * user.location, user.onChar)];
    }

    /** The allocating part of `mp1_ioctl_add`, on any pool. */
    method Insert(user: Blinker) returns (p: int)
      requires pool.Length == POOL
      modifies this`head, pool
      ensures p == NULL ==> pool[..] == old(pool[..]) && head == old(head) && forall i | 0 <= i < POOL :: pool[i].b.location != 0
      ensures p != NULL ==>
                && 0 <= p < POOL && old(pool[p]).b.location == 0
                && (forall i | 0 <= i < p :: old(pool[i]).b.location != 0)
                && pool[..] == old(pool[..])[p := Slot(Started(user), old(head))]
                && head == p
    {
      var temp := user.(status := 1, countdown := user.onLength);
      p := Malloc();
      if p != NULL {
        pool[p] := Slot(temp, head);
        head := p;
      }
    }

    /** The pointer that leads to slot `p`: the head (`NULL` here) or the `next` field of another slot. */
    method FindPrevious(p: int, ghost k: nat) returns (prev: int)
      requires Valid() && k < |order| && p == order[k]
      ensures prev == if k == 0 then NULL else order[k - 1]
    {
      prev := NULL;
      ghost var i := 0;
      while (if prev == NULL then head else pool[prev].next) != p
        invariant i <= k && prev == if i == 0 then NULL else order[i - 1]
        invariant (if prev == NULL then head else pool[prev].next) == order[i]
        decreases k - i
      {
        assert Linked(pool[..], order, i);
        prev := if prev == NULL then head else pool[prev].next;
        i := i + 1;
      }
    }

    /** `mp1_ioctl_remove`: the most recent blinker at the location. */
    method Remove(location: word16) returns (r: int)
      requires Valid()
      modifies this, pool
      ensures Valid() && Contents() == Removed(old(Contents()), location)
      ensures r == if Found(old(Contents()), location) < |old(Contents())| then 0 else -1
    {
      var p; ghost var k;
      p, k := FindHelper(location);
      if p == NULL {
        return -1;
      }
      var prev := FindPrevious(p, k);
      assert Linked(pool[..], order, k) && (k > 0 ==> Linked(pool[..], order, k - 1));
      ghost var before := pool[..];
      var next := pool[p].next;
      if prev == NULL {
        head := next;
      } else {
        pool[prev] := pool[prev].(next := next);
      }
      pool[p] := ZERO;
      ghost var order' := Without(order, k);
      Unthreaded(before, order, k, pool[..], head, order');
      UnthreadedList(before, order, k, pool[..], order', Listed(before, order), Listed(pool[..], order'));
      order := order';
      return 0;
    }

    /** `mp1_ioctl_find` without the copy to user space. */
    method Find(location: word16) returns (r: int, b: Blinker)
      requires Valid()
      ensures var k := Found(Contents(), location);
              if k < |Contents()| then r == 0 && b == Contents()[k] else r == -1
    {
      var p; ghost var k;
      p, k := FindHelper(location);
      if p == NULL {
        return -1, ZERO.b;
      }
      return 0, pool[p].b;
    }

    /** `mp1_ioctl_sync`: the second blinker takes over the timer of the first. What is drawn is always its off character,
        because the conditional move that should choose the on character tests a flag that is never set. That is the
        character of the new status exactly when the first blinker is off, or both characters are the same. */
    method Sync(from: word16, to: word16) returns (r: int, pokes: Pokes)
      requires Valid()
      modifies pool
      ensures Valid() && Contents() == Synced(old(Contents()), from, to)
      ensures var bs, i, j := old(Contents()), Found(old(Contents()), from), Found(old(Contents()), to);
              if i < |bs| && j < |bs| then r == 0 && pokes == [(2 * to, bs[j].offChar)] else r == -1 && pokes == []
      ensures r == 0 ==>
                var bs, j := Contents(), Found(old(Contents()), to);
                pokes == [(2 * to, Appearance(bs[j]))] <==>
                !IsOn(old(Contents())[Found(old(Contents()), from)]) || bs[j].onChar == bs[j].offChar
    {
      var esi, edi; ghost var i, j;
      esi, i := FindHelper(from);
      if esi == NULL {
        return -1, [];
      }
      edi, j := FindHelper(to);
      if edi == NULL {
        return -1, [];
      }
      var a, b := pool[esi].b, pool[edi].b;
      b := b.(onLength := a.onLength, offLength := a.offLength, countdown := a.countdown, status := a.status);
      ghost var before := pool[..];
      pool[edi] := pool[edi].(b := b);
      DataChanged(before, head, order, j, b, pool[..]);
      return 0, [(2 * b.location, b.offChar)];
    }

    /** The body of the loop of `mp1_rtc_tasklet`. */
    method TickSlot(p: int, ghost k: nat) returns (pokes: Pokes, next: int)
      requires Valid() && k < |order| && p == order[k]
      modifies pool
      ensures Valid() && Contents() == old(Contents())[k := Ticked(old(Contents())[k])]
      ensures pokes == Redraw(old(Contents())[k]) && next == Follower(order, k)
      ensures var was, now := old(Contents())[k], Contents()[k];
              pokes == if now.status == was.status then [] else [(2 * was.location, Appearance(now))]
    {
      pokes := [];
      var b := pool[p].b;
      b := b.(countdown := Decremented(b.countdown));
      if !Positive(b.countdown) {
        if b.status % 2 == 1 {
          pokes := [(2 * b.location, b.offChar)];
          b := b.(countdown := b.offLength);
        } else {
          pokes := [(2 * b.location, b.onChar)];
          b := b.(countdown := b.onLength);
        }
        b := b.(status := Toggled(b.status));
      }
      ghost var before := pool[..];
      pool[p] := pool[p].(b := b);
      DataChanged(before, head, order, k, b, pool[..]);
      assert Linked(pool[..], order, k);
      next := pool[p].next;
    }

    /** ... when the first `k` blinkers of `bs` have ticked already. */
    method TickNext(p: int, ghost bs: Blinkers, ghost k: nat, ghost now: Blinkers)
      returns (pokes: Pokes, next: int, ghost now': Blinkers)
      requires Valid() && k < |order| && p == order[k] && Contents() == now && TickedUpTo(bs, k, now)
      modifies pool
      ensures Valid() && Contents() == now' && TickedUpTo(bs, k + 1, now')
      ensures pokes == Redraw(bs[k]) && next == Follower(order, k)
    {
      now' := now[k := Ticked(now[k])];
      pokes, next := TickSlot(p, k);
    }

    /** `mp1_rtc_tasklet`: every blinker ticks, and those that expire are redrawn, in list order. */
    method Tick() returns (pokes: Pokes)
      requires Valid()
      modifies pool
      ensures Valid() && Contents() == TickedAll(old(Contents())) && pokes == Redrawn(old(Contents()), |old(Contents())|)
    {
      ghost var bs, k := Contents(), 0;
      ghost var now := bs;
      var p := head;
      pokes := [];
      while p != NULL
        invariant k <= |order| == |bs| && p == if k < |order| then order[k] else NULL
        invariant Valid() && Contents() == now && TickedUpTo(bs, k, now) && pokes == Redrawn(bs, k)
        decreases |order| - k
      {
        var more, next; ghost var now';
        more, next, now' := TickNext(p, bs, k, now);
        pokes, p, k, now := pokes + more, next, k + 1, now';
      }
      AllTicked(bs, now);
    }
  }

  /** `now` is the list when the first `k` blinkers have ticked. */
  ghost predicate TickedUpTo(bs: Blinkers, k: nat, now: Blinkers) {
    |now| == |bs| && forall j | 0 <= j < |bs| :: now[j] == if j < k then Ticked(bs[j]) else bs[j]
  }

  lemma AllTicked(bs: Blinkers, now: Blinkers)
    requires TickedUpTo(bs, |bs|, now)
    ensures now == TickedAll(bs)
  {
  }

  /** How a blinker that expires is redrawn. */
  ghost function Redraw(b: Blinker): (pokes: Pokes) {
    if Expires(b) then [(2 * b.location, if IsOn(b) then b.offChar else b.onChar)] else []
  }

  /** That is exactly when its status changes, with the character of the new status. */
  lemma RedrawsNewStatus(b: Blinker)
    ensures Redraw(b) == if Ticked(b).status == b.status then [] else [(2 * b.location, Appearance(Ticked(b)))]
  {
  }

  ghost function Redrawn(bs: Blinkers, n: nat): (pokes: Pokes)
    requires n <= |bs|
  {
    if n == 0 then [] else Redrawn(bs, n - 1) + Redraw(bs[n - 1])
  }

  /** Changing the data of a slot, its location and link apart, changes one blinker of the list. */
  lemma DataChanged(pool: seq<Slot>, head: int, order: seq<nat>, k: nat, b: Blinker, pool': seq<Slot>)
    requires Threaded(pool, head, order) && k < |order| && b.location == pool[order[k]].b.location
    requires pool' == pool[order[k] := pool[order[k]].(b := b)]
    ensures Threaded(pool', head, order)
    ensures Listed(pool', order) == Listed(pool, order)[k := b]
  {
    forall i: nat | i < |order|
      ensures Linked(pool', order, i)
    {
      assert Linked(pool, order, i);
    }
  }

  lemma HeadInUse(pool: seq<Slot>, head: int, order: seq<nat>)
    ensures Threaded(pool, head, order) && head != NULL ==> 0 <= head < POOL && pool[head].b.location != 0
  {
    if Threaded(pool, head, order) && head != NULL {
      assert Linked(pool, order, 0);
    }
  }

  /** With every location taken, the list has 2000 blinkers; with one free, it has fewer. */
  lemma AllUsed(pool: seq<Slot>, head: int, order: seq<nat>)
    requires Threaded(pool, head, order) && forall i | 0 <= i < POOL :: pool[i].b.location != 0
    ensures |order| == POOL
  {
    AtMost(order, POOL);
    AtLeast(order, POOL);
  }

  lemma SomeFree(pool: seq<Slot>, head: int, order: seq<nat>, p: nat)
    requires Threaded(pool, head, order) && p < POOL && pool[p].b.location == 0
    ensures |order| < POOL && p !in order
  {
    forall k: nat | k < |order|
      ensures order[k] != p
    {
      assert Linked(pool, order, k);
    }
    AtMost(order + [p], POOL);
  }

  lemma {:induction false} AtMost(s: seq<nat>, n: nat)
    requires Distinct(s) && forall k | 0 <= k < |s| :: s[k] < n
    ensures |s| <= n
  {
    if s != [] {
      assert s[0] < n;
      if i :| 0 <= i < |s| && s[i] == n - 1 {
        AtMost(s[..i] + s[i + 1..], n - 1);
      } else {
        AtMost(s, n - 1);
      }
    }
  }

  lemma {:induction false} AtLeast(s: seq<nat>, n: nat)
    requires forall x: nat | x < n :: x in s
    ensures |s| >= n
  {
    if n > 0 {
      assert n - 1 in s;
      var i :| 0 <= i < |s| && s[i] == n - 1;
      var t := s[..i] + s[i + 1..];
      forall x: nat | x < n - 1
        ensures x in t
      {
        assert x in s;
        var j :| 0 <= j < |s| && s[j] == x;
        assert j < i ==> t[j] == x;
        assert j > i ==> t[j - 1] == x;
      }
      AtLeast(t, n - 1);
    }
  }

  /** A free slot put in front of the list. */
  lemma FrontThreaded(pool: seq<Slot>, order: seq<nat>, p: nat, slot: Slot, pool': seq<Slot>, order': seq<nat>)
    requires Threaded(pool, First(order), order) && p < POOL && p !in order
    requires pool' == pool[p := slot] && slot.b.location != 0 && slot.next == First(order)
    requires order' == [p] + order
    ensures Threaded(pool', p, order')
    ensures Listed(pool', order') == [slot.b] + Listed(pool, order)
  {
    forall k: nat | k < |order'|
      ensures Linked(pool', order', k)
    {
      if k > 0 {
        assert Linked(pool, order, k - 1) && order'[k] == order[k - 1] != p;
      }
    }
  }

  ghost function Without(order: seq<nat>, k: nat): (r: seq<nat>)
    requires k < |order|
  {
    order[..k] + order[k + 1..]
  }

  /** The order of the list without place `k`. */
  lemma TakenOut(order: seq<nat>, k: nat)
    requires Distinct(order) && k < |order|
    ensures Distinct(Without(order, k)) && First(Without(order, k)) == if k > 0 then order[0] else Follower(order, k)
    ensures forall p :: p in Without(order, k) <==> p in order && p != order[k]
  {
    var order' := Without(order, k);
    forall p | p in order && p != order[k]
      ensures p in order'
    {
      var i :| 0 <= i < |order| && order[i] == p;
      assert i < k ==> order'[i] == p;
      assert i > k ==> order'[i - 1] == p;
    }
  }

  /** `pool'` is the pool after the slot at place `k` is unlinked and cleared. */
  ghost predicate Unlinks(pool: seq<Slot>, order: seq<nat>, k: nat, pool': seq<Slot>)
    requires k < |order| && forall i | 0 <= i < |order| :: order[i] < POOL
  {
    && |pool| == |pool'| == POOL
    && pool'[order[k]] == ZERO
    && (k > 0 ==> pool'[order[k - 1]] == pool[order[k - 1]].(next := Follower(order, k)))
    && forall p: nat | p < POOL && p != order[k] && (k > 0 ==> p != order[k - 1]) :: pool'[p] == pool[p]
  }

  lemma LinkedWithout(pool: seq<Slot>, order: seq<nat>, k: nat, pool': seq<Slot>, i: nat, j: nat)
    requires Threaded(pool, First(order), order) && k < |order| && Unlinks(pool, order, k, pool')
    requires i < |order| - 1 && j == if i < k then i else i + 1
    ensures Linked(pool', Without(order, k), i)
    ensures Without(order, k)[i] == order[j] && pool'[order[j]].b == pool[order[j]].b
  {
    assert Linked(pool, order, j);
    assert order[j] != order[k] && (k > 0 && j != k - 1 ==> order[j] != order[k - 1]);
  }

  /** The slot at place `k` taken out of the list. */
  lemma Unthreaded(pool: seq<Slot>, order: seq<nat>, k: nat, pool': seq<Slot>, head': int, order': seq<nat>)
    requires Threaded(pool, First(order), order) && k < |order| && Unlinks(pool, order, k, pool')
    requires head' == (if k > 0 then order[0] else Follower(order, k)) && order' == Without(order, k)
    ensures Threaded(pool', head', order')
  {
    TakenOut(order, k);
    forall i: nat | i < |order'|
      ensures Linked(pool', order', i)
    {
      LinkedWithout(pool, order, k, pool', i, if i < k then i else i + 1);
    }
    forall p: nat | p < POOL && p !in order'
      ensures pool'[p] == ZERO
    {
      assert p == order[k] || p !in order;
      if p !in order && k > 0 {
        assert order[k - 1] in order;
      }
    }
    forall i | 0 <= i < |order'|
      ensures order'[i] < POOL
    {
      assert Linked(pool', order', i);
    }
  }

  lemma UnthreadedList(pool: seq<Slot>, order: seq<nat>, k: nat, pool': seq<Slot>, order': seq<nat>,
                       bs: Blinkers, bs': Blinkers)
    requires Threaded(pool, First(order), order) && k < |order| && Unlinks(pool, order, k, pool')
    requires order' == Without(order, k) && Threaded(pool', First(order'), order')
    requires bs == Listed(pool, order) && bs' == Listed(pool', order')
    ensures bs' == bs[..k] + bs[k + 1..]
  {
    var cut := bs[..k] + bs[k + 1..];
    forall i: nat | i < |bs'|
      ensures bs'[i] == cut[i]
    {
      var j := if i < k then i else i + 1;
      LinkedWithout(pool, order, k, pool', i, j);
      assert cut[i] == bs[j] && bs'[i] == pool'[order'[i]].b;
    }
  }

  lemma {:induction false} FoundIs(bs: Blinkers, location: word16, k: nat)
    requires k <= |bs| && (k < |bs| ==> bs[k].location == location)
    requires forall j | 0 <= j < k :: bs[j].location != location
    ensures Found(bs, location) == k
  {
  }

  // ---------------------------------------------------------------------
  // Runs
  // ---------------------------------------------------------------------

  datatype Op = AddOp(b: Blinker) | RemoveOp(location: word16) | SyncOp(from: word16, to: word16) | TickOp

  ghost function Done(bs: Blinkers, op: Op): (r: Blinkers) {
    match op
    case AddOp(b) => if b.location >= POOL || |bs| == POOL then bs else [Started(b)] + bs
    case RemoveOp(location) => Removed(bs, location)
    case SyncOp(from, to) => Synced(bs, from, to)
    case TickOp => TickedAll(bs)
  }

  ghost function DoneAll(bs: Blinkers, ops: seq<Op>): (r: Blinkers)
    decreases |ops|
  {
    if ops == [] then bs else DoneAll(Done(bs, ops[0]), ops[1..])
  }

  ghost function Ticks(n: nat): (ops: seq<Op>)
    ensures |ops| == n && forall i | 0 <= i < n :: ops[i] == TickOp
  {
    seq(n, _ => TickOp)
  }

  lemma {:induction false} TickFirst(b: Blinker, n: nat)
    ensures TickedTimes(Ticked(b), n) == TickedTimes(b, n + 1)
  {
    if n > 0 {
      TickFirst(b, n - 1);
    }
  }

  /** `n` ticks of the list are `n` ticks of each of its blinkers. */
  lemma {:induction false} ListTicks(bs: Blinkers, n: nat, k: nat)
    requires k < |bs|
    ensures var r := DoneAll(bs, Ticks(n)); |r| == |bs| && r[k] == TickedTimes(bs[k], n)
    decreases n
  {
    if n > 0 {
      assert Ticks(n)[1..] == Ticks(n - 1) && Ticks(n)[0] == TickOp;
      ListTicks(TickedAll(bs), n - 1, k);
      TickFirst(bs[k], n - 1);
    }
  }

  /** Two blinkers that were synced have equal status and countdown after every later tick. */
  lemma SyncedStayInStep(bs: Blinkers, from: word16, to: word16, n: nat)
    requires Found(bs, from) < |bs| && Found(bs, to) < |bs|
    ensures var r := DoneAll(Done(bs, SyncOp(from, to)), Ticks(n));
            |r| == |bs| && SameTimer(r[Found(bs, from)], r[Found(bs, to)])
  {
    var i, j := Found(bs, from), Found(bs, to);
    var synced := Synced(bs, from, to);
    StayInStep(synced[i], synced[j], n);
    ListTicks(synced, n, i);
    ListTicks(synced, n, j);
  }

  /** A blinker is on `n` ticks after it was added exactly in the first part of its period. */
  lemma AddedBlinks(bs: Blinkers, b: Blinker, n: nat)
    requires b.location < POOL && |bs| < POOL && Exact(b.onLength) && Exact(b.offLength)
    ensures var r := DoneAll(Done(bs, AddOp(b)), Ticks(n));
            |r| == |bs| + 1 && (IsOn(r[0]) <==> n % (b.onLength + b.offLength) < b.onLength)
  {
    ListTicks(Done(bs, AddOp(b)), n, 0);
    OnIff(Started(b));
    assert OnAt(Started(b), n);
  }

  // ---------------------------------------------------------------------
  // What the screen shows
  // ---------------------------------------------------------------------

  /** What an operation draws: (address, character) pairs. */
  ghost function PokesOf(bs: Blinkers, op: Op): (pokes: Pokes) {
    match op
    case AddOp(b) => if b.location >= POOL || |bs| == POOL then [] else [(2 * b.location, b.onChar)]
    case RemoveOp(_) => []
    case SyncOp(from, to) =>
      if Found(bs, from) < |bs| && Found(bs, to) < |bs| then [(2 * to, bs[Found(bs, to)].offChar)] else []
    case TickOp => Redrawn(bs, |bs|)
  }

  ghost function PokesOfAll(bs: Blinkers, ops: seq<Op>): (pokes: Pokes)
    decreases |ops|
  {
    if ops == [] then [] else PokesOf(bs, ops[0]) + PokesOfAll(Done(bs, ops[0]), ops[1..])
  }

  ghost predicate NotDrawn(pokes: Pokes, address: int) {
    forall i | 0 <= i < |pokes| :: pokes[i].0 != address
  }

  /** `c` is the last character drawn at an address. */
  ghost predicate LastDrawn(pokes: Pokes, address: int, c: byte) {
    exists i | 0 <= i < |pokes| :: pokes[i] == (address, c) && NotDrawn(pokes[i + 1..], address)
  }

  lemma DrawnLater(pokes: Pokes, more: Pokes, address: int, c: byte)
    requires LastDrawn(more, address, c) || (LastDrawn(pokes, address, c) && NotDrawn(more, address))
    ensures LastDrawn(pokes + more, address, c)
  {
    var all := pokes + more;
    if LastDrawn(more, address, c) {
      var i :| 0 <= i < |more| && more[i] == (address, c) && NotDrawn(more[i + 1..], address);
      assert all[|pokes| + i] == (address, c) && all[|pokes| + i + 1..] == more[i + 1..];
    } else {
      var i :| 0 <= i < |pokes| && pokes[i] == (address, c) && NotDrawn(pokes[i + 1..], address);
      assert all[i] == (address, c) && all[i + 1..] == pokes[i + 1..] + more;
    }
  }

  /** No other blinker of the list is at the location of number `k`. */
  ghost predicate Alone(bs: Blinkers, k: nat)
    requires k < |bs|
  {
    forall j | 0 <= j < |bs| && j != k :: bs[j].location != bs[k].location
  }

  /** Every blinker that has its location to itself is last drawn as its status says. */
  ghost predicate AllShown(pokes: Pokes, bs: Blinkers) {
    forall k: nat | k < |bs| && Alone(bs, k) :: LastDrawn(pokes, 2 * bs[k].location, Appearance(bs[k]))
  }

  /** A tick draws a blinker that has its location to itself exactly if its status changes. */
  lemma {:induction false} RedrawnAt(bs: Blinkers, n: nat, k: nat)
    requires n <= |bs| && k < |bs| && Alone(bs, k)
    ensures var address, now := 2 * bs[k].location, Ticked(bs[k]);
            if k < n && now.status != bs[k].status then LastDrawn(Redrawn(bs, n), address, Appearance(now))
            else NotDrawn(Redrawn(bs, n), address)
  {
    if n > 0 {
      RedrawnAt(bs, n - 1, k);
      RedrawsNewStatus(bs[n - 1]);
      var address, more := 2 * bs[k].location, Redraw(bs[n - 1]);
      if n - 1 == k {
        if more != [] {
          assert more[0] == (address, Appearance(Ticked(bs[k]))) && NotDrawn(more[1..], address);
          assert LastDrawn(more, address, Appearance(Ticked(bs[k])));
          DrawnLater(Redrawn(bs, n - 1), more, address, Appearance(Ticked(bs[k])));
        }
      } else {
        assert NotDrawn(more, address);
        if k < n - 1 && Ticked(bs[k]).status != bs[k].status {
          DrawnLater(Redrawn(bs, n - 1), more, address, Appearance(Ticked(bs[k])));
        }
      }
    }
  }

  lemma TickShows(pokes: Pokes, bs: Blinkers)
    requires AllShown(pokes, bs)
    ensures AllShown(pokes + Redrawn(bs, |bs|), TickedAll(bs))
  {
    var now, more := TickedAll(bs), Redrawn(bs, |bs|);
    forall k: nat | k < |now| && Alone(now, k)
      ensures LastDrawn(pokes + more, 2 * now[k].location, Appearance(now[k]))
    {
      forall j | 0 <= j < |bs| && j != k
        ensures bs[j].location != bs[k].location
      {
        assert now[j].location != now[k].location;
      }
      assert Alone(bs, k);
      RedrawnAt(bs, |bs|, k);
      DrawnLater(pokes, more, 2 * bs[k].location, Appearance(now[k]));
    }
  }

  lemma AloneBehind(b: Blinker, bs: Blinkers, now: Blinkers, k: nat)
    requires now == [b] + bs && 0 < k < |now| && Alone(now, k)
    ensures Alone(bs, k - 1) && b.location != bs[k - 1].location
  {
    assert now[0].location != now[k].location;
    forall j | 0 <= j < |bs| && j != k - 1
      ensures bs[j].location != bs[k - 1].location
    {
      assert now[j + 1].location != now[k].location;
    }
  }

  lemma OneDrawn(pokes: Pokes, address: int, c: byte, other: int, d: byte)
    ensures LastDrawn(pokes + [(address, c)], address, c)
    ensures other != address && LastDrawn(pokes, other, d) ==> LastDrawn(pokes + [(address, c)], other, d)
  {
    var more := [(address, c)];
    assert more[0] == (address, c) && NotDrawn(more[1..], address);
    DrawnLater(pokes, more, address, c);
    if other != address && LastDrawn(pokes, other, d) {
      DrawnLater(pokes, more, other, d);
    }
  }

  lemma AddShows(pokes: Pokes, bs: Blinkers, b: Blinker)
    requires AllShown(pokes, bs)
    ensures AllShown(pokes + [(2 * b.location, b.onChar)], [Started(b)] + bs)
  {
    var now := [Started(b)] + bs;
    forall k: nat | k < |now| && Alone(now, k)
      ensures LastDrawn(pokes + [(2 * b.location, b.onChar)], 2 * now[k].location, Appearance(now[k]))
    {
      OneDrawn(pokes, 2 * b.location, b.onChar, 2 * now[k].location, Appearance(now[k]));
      if k > 0 {
        AloneBehind(Started(b), bs, now, k);
      }
    }
  }

  /** Over every run of adds and ticks, what is last drawn at the location of a blinker that has it to itself is the
      character of its status. */
  lemma {:induction false} RunShows(pokes: Pokes, bs: Blinkers, ops: seq<Op>)
    requires AllShown(pokes, bs) && forall i | 0 <= i < |ops| :: ops[i].AddOp? || ops[i].TickOp?
    ensures AllShown(pokes + PokesOfAll(bs, ops), DoneAll(bs, ops))
    decreases |ops|
  {
    if ops == [] {
      assert pokes + [] == pokes;
    } else {
      var more := PokesOf(bs, ops[0]);
      if ops[0].TickOp? {
        TickShows(pokes, bs);
      } else if more != [] {
        AddShows(pokes, bs, ops[0].b);
      } else {
        assert pokes + more == pokes;
      }
      RunShows(pokes + more, Done(bs, ops[0]), ops[1..]);
      assert (pokes + more) + PokesOfAll(Done(bs, ops[0]), ops[1..]) == pokes + PokesOfAll(bs, ops);
    }
  }

  /** A blinker that is added at a free location, with lengths from 1 to 0x8000, shows its on character `n` ticks later
      exactly in the first part of its period, and its off character in the second. */
  lemma AddedShows(pokes: Pokes, bs: Blinkers, b: Blinker, n: nat, ops: seq<Op>)
    requires AllShown(pokes, bs) && b.location < 2000 && |bs| < 2000 && Exact(b.onLength) && Exact(b.offLength)
    requires forall j | 0 <= j < |bs| :: bs[j].location != b.location
    requires ops == [AddOp(b)] + Ticks(n)
    ensures LastDrawn(pokes + PokesOfAll(bs, ops), 2 * b.location,
                      if n % (b.onLength + b.offLength) < b.onLength then b.onChar else b.offChar)
  {
    var start := Done(bs, AddOp(b));
    var end := DoneAll(bs, ops);
    assert ops[0] == AddOp(b) && ops[1..] == Ticks(n);
    RunShows(pokes, bs, ops);
    AddedBlinks(bs, b, n);
    ListTicks(start, n, 0);
    TicksKeep(Started(b), n);
    StaysAlone(start, n, end);
  }

  lemma StaysAlone(bs: Blinkers, n: nat, end: Blinkers)
    requires bs != [] && end == DoneAll(bs, Ticks(n)) && forall j | 0 < j < |bs| :: bs[j].location != bs[0].location
    ensures end != [] && Alone(end, 0)
  {
    ListTicks(bs, n, 0);
    TicksKeep(bs[0], n);
    forall j | 0 < j < |end|
      ensures end[j].location != end[0].location
    {
      ListTicks(bs, n, j);
      TicksKeep(bs[j], n);
    }
  }

  /** A tick changes countdown and status alone. */
  lemma {:induction false} TicksKeep(b: Blinker, n: nat)
    ensures TickedTimes(b, n) == b.(countdown := TickedTimes(b, n).countdown, status := TickedTimes(b, n).status)
  {
    if n > 0 {
      TicksKeep(b, n - 1);
    }
  }

  /** After any sequence of operations with locations other than 0, the pool holds exactly the list that the
      operations describe, and what they describe has been drawn. */
  method PerformAll(list: BlinkList, ops: seq<Op>) returns (pokes: Pokes)
    requires list.Valid() && forall i | 0 <= i < |ops| :: ops[i].AddOp? ==> ops[i].b.location != 0
    modifies list, list.pool
    ensures list.Valid() && list.Contents() == DoneAll(old(list.Contents()), ops)
    ensures pokes == PokesOfAll(old(list.Contents()), ops)
  {
    ghost var bs := list.Contents();
    pokes := [];
    for i := 0 to |ops|
      invariant list.Valid() && DoneAll(bs, ops) == DoneAll(list.Contents(), ops[i..])
      invariant PokesOfAll(bs, ops) == pokes + PokesOfAll(list.Contents(), ops[i..])
    {
      assert ops[i..][1..] == ops[i + 1..] && ops[i..][0] == ops[i];
      var more := Perform(list, ops[i]);
      Appended(pokes, more, PokesOfAll(list.Contents(), ops[i + 1..]));
      pokes := pokes + more;
    }
  }

  lemma Appended(a: Pokes, b: Pokes, c: Pokes)
    ensures a + (b + c) == (a + b) + c
  {
  }

  method Perform(list: BlinkList, op: Op) returns (pokes: Pokes)
    requires list.Valid() && (op.AddOp? ==> op.b.location != 0)
    modifies list, list.pool
    ensures list.Valid() && list.Contents() == Done(old(list.Contents()), op) && pokes == PokesOf(old(list.Contents()), op)
  {
    var r;
    match op
    case AddOp(b) => r, pokes := list.Add(b);
    case RemoveOp(location) => r := list.Remove(location); pokes := [];
    case SyncOp(from, to) => r, pokes := list.Sync(from, to);
    case TickOp => pokes := list.Tick();
  }

  /** A blinker at location 0 does break the list: adding a second one there makes the slot its own successor. */
  method AddTwiceAtZero(list: BlinkList, a: Blinker, b: Blinker)
    requires list.Valid() && list.order == [] && a.location == 0 && b.location == 0
    modifies list, list.pool
    ensures list.head == 0 && list.pool[0].next == list.head
  {
    assert list.pool[..][0] == ZERO;
    var p := list.Insert(a);
    assert p == 0 && list.pool[..][0].b.location == 0;
    var q := list.Insert(b);
    assert list.pool[..][0] == Slot(Started(b), 0);
  }
}
