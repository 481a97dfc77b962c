/** The blinking-character list of the fish program: a linked list in a pool of 2000 structs whose
    free test is `location == 0`, walked once per RTC tick. */
module Blink {
  import opened Common
  import opened Strings

  const POOL := 2000
  const WORD := 0x1_0000

  /** `struct mp1_blink_struct`. A pointer is 0 for NULL and i + 1 for pool slot i. */
  datatype Entry = Entry(location: nat, onChar: byte, offChar: byte, onLength: nat, offLength: nat,
                         countdown: nat, status: nat, next: nat)

  const FREE_ENTRY := Entry(0, 0, 0, 0, 0, 0, 0, 0)

  // ----- one entry's phase -----

  /** How many tasklet runs a 16-bit countdown of `c` lasts: the test after the decrement is signed,
      so 0 and everything above 32768 last a single run. */
  function Runs(c: nat): (r: nat)
    ensures r > 0
  {
    if 1 <= c <= 0x8000 then c else 1
  }

  function Decremented(c: nat): nat { (c + WORD - 1) % WORD }

  predicate SignedPositive(c: nat) { 0 < c < 0x8000 }

  /** The loop body of `mp1_rtc_tasklet`. */
  function Tick(e: Entry): Entry {
    var c := Decremented(e.countdown);
    if SignedPositive(c) then e.(countdown := c)
    else if e.status % 2 == 1 then e.(countdown := e.offLength, status := 0)
    else e.(countdown := e.onLength, status := 1)
  }

  /** A blinker as a function of its age, the tasklet runs since it was added. */
  datatype Blinker = Blinker(location: nat, onChar: byte, offChar: byte, onLength: nat, offLength: nat, age: nat) {

    function Phase(): nat { age % (Runs(onLength) + Runs(offLength)) }

    predicate On() { Phase() < Runs(onLength) }

    /** Runs until it toggles. */
    function Left(): nat {
      if On() then Runs(onLength) - Phase() else Runs(onLength) + Runs(offLength) - Phase()
    }

    function Char(): byte { if On() then onChar else offChar }

    function Older(): Blinker { this.(age := age + 1) }
  }

  predicate Words(e: Entry) { e.onLength < WORD && e.offLength < WORD && e.countdown < WORD }

  /** An entry shows the state its age prescribes: the phase law, for all 16-bit lengths. */
  predicate Fits(e: Entry, b: Blinker) {
    && Words(e) && e.location == b.location && e.onChar == b.onChar && e.offChar == b.offChar
    && e.onLength == b.onLength && e.offLength == b.offLength
    && e.status == (if b.On() then 1 else 0)
    && Runs(e.countdown) == b.Left()
  }

  lemma ModNext(a: nat, n: nat)
    requires n > 1
    ensures (a + 1) % n == if a % n + 1 == n then 0 else a % n + 1
  {
    var q, r := a / n, a % n;
    assert a == n * q + r;
    if r + 1 == n {
      assert n * (q + 1) == n * q + n;
      DivMod(a + 1, n, q + 1, 0);
    } else {
      DivMod(a + 1, n, q, r + 1);
    }
  }

  lemma PhaseNext(b: Blinker)
    ensures b.Phase() < Runs(b.onLength) + Runs(b.offLength)
    ensures b.Older().Phase() == if b.Phase() + 1 == Runs(b.onLength) + Runs(b.offLength) then 0 else b.Phase() + 1
  {
    ModNext(b.age, Runs(b.onLength) + Runs(b.offLength));
  }

  /** A tasklet run ages a blinker by one, and when it pokes a character, it is the one of its new state. */
  lemma TickAges(e: Entry, b: Blinker)
    requires Fits(e, b)
    ensures Fits(Tick(e), b.Older())
    ensures Tick(e).status == e.status ==> b.Older().Char() == b.Char()
  {
    hide Blinker.Phase;
    PhaseNext(b);
  }

  /** Phase law from the moment of adding: status on, countdown the on-length, age 0. */
  lemma AddedFits(e: Entry, b: Blinker)
    requires Words(e) && e.status == 1 && e.countdown == e.onLength
    requires b == Blinker(e.location, e.onChar, e.offChar, e.onLength, e.offLength, 0)
    ensures Fits(e, b)
  {
    DivMod(0, Runs(b.onLength) + Runs(b.offLength), 0, 0);
  }

  function TickN(e: Entry, n: nat): Entry { if n == 0 then e else Tick(TickN(e, n - 1)) }

  /** After n runs an entry is on exactly when n modulo the period is below the on-length; lengths
      from 1 to 32768 count as written, all others as 1. */
  lemma {:induction false} PhaseLaw(e: Entry, n: nat)
    requires Words(e) && e.status == 1 && e.countdown == e.onLength
    ensures TickN(e, n).status == 1 <==> n % (Runs(e.onLength) + Runs(e.offLength)) < Runs(e.onLength)
    ensures Fits(TickN(e, n), Blinker(e.location, e.onChar, e.offChar, e.onLength, e.offLength, n))
  {
    var b := Blinker(e.location, e.onChar, e.offChar, e.onLength, e.offLength, n);
    if n == 0 {
      AddedFits(e, b);
    } else {
      PhaseLaw(e, n - 1);
      TickAges(TickN(e, n - 1), b.(age := n - 1));
    }
  }

  /** The law for the lengths as written. */
  ghost predicate WrittenLaw(e: Entry) {
    && e.onLength + e.offLength > 0
    && forall n: nat :: TickN(e, n).status == 1 <==> n % (e.onLength + e.offLength) < e.onLength
  }

  predicate AsWritten(l: nat) { 1 <= l <= 0x8000 }

  /** It holds of a new entry exactly when both lengths are between 1 and 32768. */
  lemma WrittenLawIff(e: Entry)
    requires Words(e) && e.status == 1 && e.countdown == e.onLength
    ensures WrittenLaw(e) <==> AsWritten(e.onLength) && AsWritten(e.offLength)
  {
    hide TickN;
    forall n: nat
      ensures TickN(e, n).status == 1 <==> n % (Runs(e.onLength) + Runs(e.offLength)) < Runs(e.onLength)
    {
      PhaseLaw(e, n);
    }
    if WrittenLaw(e) && !(AsWritten(e.onLength) && AsWritten(e.offLength)) {
      BreaksLaw(e);
      assert false;
    }
  }

  /** The run at which an entry with another length leaves the written law. */
  lemma BreaksLaw(e: Entry)
    requires Words(e) && e.status == 1 && e.countdown == e.onLength && e.onLength + e.offLength > 0
    requires !(AsWritten(e.onLength) && AsWritten(e.offLength))
    ensures exists n: nat :: (TickN(e, n).status == 1) != (n % (e.onLength + e.offLength) < e.onLength)
  {
    hide TickN;
    var n := if e.onLength == 0 then 0 else if !AsWritten(e.onLength) then 1
             else if e.offLength == 0 then e.onLength else e.onLength + 1;
    PhaseLaw(e, n);
    var on, off := Runs(e.onLength), Runs(e.offLength);
    if AsWritten(e.onLength) && e.offLength > 0 {
      DivMod(n, on + off, 1, 0);
    } else {
      DivMod(n, on + off, 0, n);
    }
    if e.onLength > 0 && e.offLength == 0 && AsWritten(e.onLength) {
      DivMod(n, e.onLength, 1, 0);
    } else {
      DivMod(n, e.onLength + e.offLength, 0, n);
    }
  }

  // ----- the list in the pool -----

  function Pointer(chain: seq<nat>, i: nat): nat { if i < |chain| then chain[i] + 1 else 0 }

  /** Following pointers from the head visits `chain`: no slot twice, and exactly the slots whose
      location is not 0. */
  ghost predicate ChainOk(pool: seq<Entry>, head: nat, chain: seq<nat>) {
    && |pool| == POOL
    && (forall i :: 0 <= i < |chain| ==> chain[i] < POOL)
    && (forall i, j :: 0 <= i < j < |chain| ==> chain[i] != chain[j])
    && head == Pointer(chain, 0)
    && (forall i {:trigger pool[chain[i]]} :: 0 <= i < |chain| ==> pool[chain[i]].next == Pointer(chain, i + 1))
    && (forall k: nat :: k < POOL ==> (pool[k].location != 0 <==> k in chain))
  }

  ghost predicate ModelOk(pool: seq<Entry>, chain: seq<nat>, model: seq<Blinker>) {
    && |model| == |chain| && |pool| == POOL
    && forall i :: 0 <= i < |chain| ==> chain[i] < POOL && Fits(pool[chain[i]], model[i]) && model[i].location < POOL
  }

  ghost predicate ListOk(pool: seq<Entry>, head: nat, chain: seq<nat>, model: seq<Blinker>) {
    ChainOk(pool, head, chain) && ModelOk(pool, chain, model)
  }

  lemma Inserted(pool: seq<Entry>, head: nat, chain: seq<nat>, k: nat, e: Entry)
    requires ChainOk(pool, head, chain) && k < POOL && pool[k].location == 0 && e.location != 0 && e.next == head
    ensures k !in chain && ChainOk(pool[k := e], k + 1, [k] + chain)
  {
    var c: seq<nat> := [k] + chain;
    forall i | 0 <= i < |c|
      ensures pool[k := e][c[i]].next == Pointer(c, i + 1)
    {
      if i > 0 { assert c[i] == chain[i - 1] && pool[chain[i - 1]].next == Pointer(chain, i); }
    }
    forall q: nat | q < POOL
      ensures pool[k := e][q].location != 0 <==> q in c
    {
      assert q in c <==> q == k || q in chain;
    }
  }

  lemma InsertedList(pool: seq<Entry>, head: nat, chain: seq<nat>, model: seq<Blinker>, k: nat, e: Entry)
    requires ListOk(pool, head, chain, model)
    requires k < POOL && pool[k].location == 0 && 0 < e.location < POOL && e.next == head
    requires Words(e) && e.status == 1 && e.countdown == e.onLength
    ensures var b := Blinker(e.location, e.onChar, e.offChar, e.onLength, e.offLength, 0);
            ListOk(pool[k := e], k + 1, [k] + chain, [b] + model)
  {
    hide Fits, ChainOk, Words, Blinker.Char;
    var b := Blinker(e.location, e.onChar, e.offChar, e.onLength, e.offLength, 0);
    Inserted(pool, head, chain, k, e);
    AddedFits(e, b);
    var c, m := [k] + chain, [b] + model;
    forall i | 0 <= i < |c|
      ensures c[i] < POOL && Fits(pool[k := e][c[i]], m[i]) && m[i].location < POOL
    {
      if i > 0 { assert c[i] == chain[i - 1] && m[i] == model[i - 1]; }
    }
  }

  /** The pool after unlinking the i-th entry and clearing its struct, and the new head. */
  function Unlinked(pool: seq<Entry>, head: nat, chain: seq<nat>, i: nat): (seq<Entry>, nat)
    requires i < |chain| && forall j :: 0 <= j < |chain| ==> chain[j] < |pool|
  {
    var after := pool[chain[i]].next;
    if i == 0 then (pool[chain[0] := FREE_ENTRY], after)
    else (pool[chain[i - 1] := pool[chain[i - 1]].(next := after)][chain[i] := FREE_ENTRY], head)
  }

  function Without<T>(s: seq<T>, i: nat): (r: seq<T>)
    requires i < |s|
    ensures |r| == |s| - 1 && forall j :: 0 <= j < |r| ==> r[j] == s[Old(i, j)]
  {
    s[..i] + s[i + 1..]
  }

  /** Where the j-th element was before the i-th was taken out. */
  function Old(i: nat, j: nat): nat { if j < i then j else j + 1 }

  lemma Removed(pool: seq<Entry>, head: nat, chain: seq<nat>, i: nat)
    requires ChainOk(pool, head, chain) && i < |chain|
    ensures ChainOk(Unlinked(pool, head, chain, i).0, Unlinked(pool, head, chain, i).1, Without(chain, i))
  {
    hide Without, Unlinked;
    var (p, h) := Unlinked(pool, head, chain, i);
    var c: seq<nat> := Without(chain, i);
    UnlinkedHead(pool, head, chain, i);
    forall a, b | 0 <= a < b < |c|
      ensures c[a] != c[b]
    {
      assert c[a] == chain[Old(i, a)] && c[b] == chain[Old(i, b)];
    }
    forall j | 0 <= j < |c|
      ensures p[c[j]].next == Pointer(c, j + 1)
    {
      UnlinkedNext(pool, head, chain, i, j);
    }
    forall k: nat | k < POOL
      ensures p[k].location != 0 <==> k in c
    {
      WithoutHas(chain, i, k);
      UnlinkedLocation(pool, head, chain, i, k);
    }
  }

  lemma UnlinkedHead(pool: seq<Entry>, head: nat, chain: seq<nat>, i: nat)
    requires ChainOk(pool, head, chain) && i < |chain|
    ensures |Unlinked(pool, head, chain, i).0| == POOL
    ensures Unlinked(pool, head, chain, i).1 == Pointer(Without(chain, i), 0)
  {
    hide Without;
    var c: seq<nat> := Without(chain, i);
    if |c| > 0 { assert c[0] == chain[Old(i, 0)]; }
  }

  lemma UnlinkedLocation(pool: seq<Entry>, head: nat, chain: seq<nat>, i: nat, k: nat)
    requires ChainOk(pool, head, chain) && i < |chain| && k < POOL
    ensures Unlinked(pool, head, chain, i).0[k].location == if k == chain[i] then 0 else pool[k].location
  {
  }

  lemma UnlinkedNext(pool: seq<Entry>, head: nat, chain: seq<nat>, i: nat, j: nat)
    requires ChainOk(pool, head, chain) && i < |chain| && j < |chain| - 1
    ensures Unlinked(pool, head, chain, i).0[Without(chain, i)[j]].next == Pointer(Without(chain, i), j + 1)
  {
    hide Without;
    var c: seq<nat> := Without(chain, i);
    assert c[j] == chain[Old(i, j)] != chain[i];
    if j + 1 < |c| { assert c[j + 1] == chain[Old(i, j + 1)]; }
    if i > 0 && j != i - 1 { assert c[j] != chain[i - 1]; }
  }

  lemma WithoutHas(s: seq<nat>, i: nat, k: nat)
    requires i < |s| && forall a, b :: 0 <= a < b < |s| ==> s[a] != s[b]
    ensures k in Without(s, i) <==> k in s && k != s[i]
  {
    var c: seq<nat> := Without(s, i);
    if k in s && k != s[i] {
      var j :| 0 <= j < |s| && s[j] == k;
      assert c[if j < i then j else j - 1] == k;
    }
    if k in c {
      var j :| 0 <= j < |c| && c[j] == k;
      assert s[Old(i, j)] == k;
    }
  }

  lemma RemovedList(pool: seq<Entry>, head: nat, chain: seq<nat>, model: seq<Blinker>, i: nat)
    requires ListOk(pool, head, chain, model) && i < |chain|
    ensures ListOk(Unlinked(pool, head, chain, i).0, Unlinked(pool, head, chain, i).1,
                   Without(chain, i), Without(model, i))
  {
    Removed(pool, head, chain, i);
    RemovedModel(pool, head, chain, model, i);
  }

  lemma RemovedModel(pool: seq<Entry>, head: nat, chain: seq<nat>, model: seq<Blinker>, i: nat)
    requires ChainOk(pool, head, chain) && ModelOk(pool, chain, model) && i < |chain|
    ensures ModelOk(Unlinked(pool, head, chain, i).0, Without(chain, i), Without(model, i))
  {
    hide Fits, ChainOk, Without;
    PoolFacts(pool, head, chain);
    var c: seq<nat> := Without(chain, i);
    var m, p := Without(model, i), Unlinked(pool, head, chain, i).0;
    forall j | 0 <= j < |c|
      ensures c[j] < POOL && Fits(p[c[j]], m[j]) && m[j].location < POOL
    {
      UnlinkedEntry(pool, head, chain, i, j);
      FitsNext(pool[c[j]], p[c[j]].next, m[j]);
    }
  }

  lemma FitsNext(e: Entry, next: nat, b: Blinker)
    ensures Fits(e, b) <==> Fits(e.(next := next), b)
  {
  }

  /** The other entries keep everything but their link. */
  lemma UnlinkedEntry(pool: seq<Entry>, head: nat, chain: seq<nat>, i: nat, j: nat)
    requires ChainOk(pool, head, chain) && i < |chain| && j < |chain| - 1
    ensures var c: seq<nat> := Without(chain, i);
            && c[j] == chain[Old(i, j)] && c[j] < POOL
            && Unlinked(pool, head, chain, i).0[c[j]]
               == pool[c[j]].(next := Unlinked(pool, head, chain, i).0[c[j]].next)
  {
    hide Without;
    assert chain[Old(i, j)] != chain[i];
  }

  lemma TickedList(pool: seq<Entry>, head: nat, chain: seq<nat>, model: seq<Blinker>, i: nat)
    requires ListOk(pool, head, chain, model) && i < |chain|
    ensures chain[i] < |pool|
    ensures var e := Tick(pool[chain[i]]);
            && e.next == pool[chain[i]].next && e.location == pool[chain[i]].location == model[i].location
            && ListOk(pool[chain[i] := e], head, chain, model[i := model[i].Older()])
            && (e.status == pool[chain[i]].status <==> !Toggles(model[i]))
            && model[i].Older().Char() == (if e.status == 1 then pool[chain[i]].onChar else pool[chain[i]].offChar)
  {
    hide ChainOk, Tick, Fits, Blinker.Char, Toggles;
    var e := Tick(pool[chain[i]]);
    TickAges(pool[chain[i]], model[i]);
    TickedChain(pool, head, chain, i);
    TickedModel(pool, chain, model, i, e);
    TickedFields(pool[chain[i]], model[i]);
  }

  lemma TickedFields(e: Entry, b: Blinker)
    requires Fits(e, b)
    ensures Tick(e).next == e.next && Tick(e).location == e.location == b.location
    ensures Tick(e).status == e.status <==> !Toggles(b)
    ensures b.Older().Char() == if Tick(e).status == 1 then e.onChar else e.offChar
  {
    TickAges(e, b);
    hide Tick, Blinker.On, Runs;
    TickKeeps(e);
  }

  lemma TickKeeps(e: Entry)
    ensures Tick(e) == e.(countdown := Tick(e).countdown, status := Tick(e).status)
  {
  }

  lemma TickedModel(pool: seq<Entry>, chain: seq<nat>, model: seq<Blinker>, i: nat, e: Entry)
    requires ModelOk(pool, chain, model) && i < |chain| && Fits(e, model[i].Older())
    requires forall a, b :: 0 <= a < b < |chain| ==> chain[a] != chain[b]
    ensures ModelOk(pool[chain[i] := e], chain, model[i := model[i].Older()])
  {
    hide Fits;
  }

  lemma TickedChain(pool: seq<Entry>, head: nat, chain: seq<nat>, i: nat)
    requires ChainOk(pool, head, chain) && i < |chain|
    ensures ChainOk(pool[chain[i] := Tick(pool[chain[i]])], head, chain)
    ensures forall a, b :: 0 <= a < b < |chain| ==> chain[a] != chain[b]
  {
  }

  lemma FreshChar(b: Blinker)
    requires b.age == 0
    ensures b.Char() == b.onChar
  {
    DivMod(0, Runs(b.onLength) + Runs(b.offLength), 0, 0);
  }

  /** Facts about the list that do not need its definition afterwards. */
  lemma ListEntry(pool: seq<Entry>, head: nat, chain: seq<nat>, model: seq<Blinker>, i: nat)
    requires ListOk(pool, head, chain, model) && i < |chain|
    ensures |pool| == POOL && chain[i] < POOL && i < |model|
    ensures pool[chain[i]].location == model[i].location && pool[chain[i]].next == Pointer(chain, i + 1)
  {
  }

  lemma PoolFacts(pool: seq<Entry>, head: nat, chain: seq<nat>)
    requires ChainOk(pool, head, chain)
    ensures |pool| == POOL && head == Pointer(chain, 0)
    ensures forall i :: 0 <= i < |chain| ==> chain[i] < POOL
    ensures forall i {:trigger pool[chain[i]]} :: 0 <= i < |chain| ==> pool[chain[i]].next == Pointer(chain, i + 1)
    ensures forall i, j :: 0 <= i < j < |chain| ==> chain[i] != chain[j]
  {
  }

  /** The newest entry at a location comes first. */
  function FirstAt(model: seq<Blinker>, location: nat, i: nat): (r: nat)
    requires i <= |model|
    ensures i <= r <= |model|
    ensures r < |model| ==> model[r].location == location
    ensures forall j :: i <= j < r ==> model[j].location != location
    decreases |model| - i
  {
    if i == |model| || model[i].location == location then i else FirstAt(model, location, i + 1)
  }

  function Aged(model: seq<Blinker>, n: nat): (r: seq<Blinker>)
    requires n <= |model|
    ensures |r| == |model| && forall i :: 0 <= i < |model| ==> r[i] == if i < n then model[i].Older() else model[i]
  {
    seq(|model|, i requires 0 <= i < |model| => if i < n then model[i].Older() else model[i])
  }

  predicate OnScreen(model: seq<Blinker>) { forall i :: 0 <= i < |model| ==> model[i].location < POOL }

  /** The next run changes the state. */
  predicate Toggles(b: Blinker) { b.On() != b.Older().On() }

  /** The screen after the first n entries of the list have had a run. */
  ghost function Painted(v: Bytes, model: seq<Blinker>, n: nat): (r: Bytes)
    requires n <= |model| && |v| == 2 * POOL && OnScreen(model)
    ensures |r| == 2 * POOL
  {
    if n == 0 then v
    else
      var w, b := Painted(v, model, n - 1), model[n - 1];
      if Toggles(b) then w[2 * b.location := b.Older().Char()] else w
  }

  // ----- sequences of calls -----

  datatype Call =
    | AddCall(location: nat, onChar: byte, offChar: byte, onLength: nat, offLength: nat)
    | RemoveCall(location: nat)
    | RunCall

  predicate CallOk(c: Call) {
    c.AddCall? ==> 0 < c.location < WORD && c.onLength < WORD && c.offLength < WORD
  }

  /** What a user of the list sees: text memory, and the blinkers from newest to oldest. */
  datatype ListState = ListState(video: Bytes, model: seq<Blinker>) {
    predicate Ok() { |video| == 2 * POOL && OnScreen(model) }
  }

  ghost function After(s: ListState, c: Call): (r: ListState)
    requires s.Ok() && CallOk(c)
    ensures r.Ok()
  {
    match c
    case AddCall(l, onChar, offChar, onLength, offLength) =>
      if l < POOL && |s.model| < POOL then
        ListState(s.video[2 * l := onChar], [Blinker(l, onChar, offChar, onLength, offLength, 0)] + s.model)
      else s
    case RemoveCall(l) =>
      var i := FirstAt(s.model, l, 0);
      if i < |s.model| then s.(model := Without(s.model, i)) else s
    case RunCall => ListState(Painted(s.video, s.model, |s.model|), Aged(s.model, |s.model|))
  }

  ghost function AfterAll(s: ListState, cs: seq<Call>): (r: ListState)
    requires s.Ok() && forall c :: c in cs ==> CallOk(c)
    ensures r.Ok()
    decreases |cs|
  {
    if cs == [] then s else AfterAll(After(s, cs[0]), cs[1..])
  }

  function RunsIn(cs: seq<Call>): nat {
    if cs == [] then 0 else (if cs[0].RunCall? then 1 else 0) + RunsIn(cs[1..])
  }

  // ----- capacity -----

  function Range(n: nat): (r: set<nat>)
    ensures |r| == n && forall k :: k in r <==> 0 <= k < n
  {
    if n == 0 then {} else Range(n - 1) + {n - 1}
  }

  function Elements(s: seq<nat>): (r: set<nat>)
    ensures forall x :: x in r <==> x in s
    ensures (forall i, j :: 0 <= i < j < |s| ==> s[i] != s[j]) ==> |r| == |s|
  {
    if s == [] then {}
    else
      assert s == [s[0]] + s[1..];
      assert (forall i, j :: 0 <= i < j < |s| ==> s[i] != s[j]) ==> s[0] !in s[1..];
      Elements(s[1..]) + {s[0]}
  }

  /** All slots are used exactly when the list has 2000 entries. */
  lemma FullIff(pool: seq<Entry>, head: nat, chain: seq<nat>)
    requires ChainOk(pool, head, chain)
    ensures |chain| <= POOL
    ensures |chain| == POOL <==> forall k :: 0 <= k < POOL ==> pool[k].location != 0
  {
    hide Range, Elements;
    var used, all := Elements(chain), Range(POOL);
    forall x | x in used
      ensures x in all
    {
      assert x in chain;
    }
    SubsetSize(used, all);
    if forall k :: 0 <= k < POOL ==> pool[k].location != 0 {
      forall k | k in all
        ensures k in used
      {
        assert pool[k].location != 0;
      }
      assert all == used;
    } else {
      var k :| 0 <= k < POOL && pool[k].location == 0;
      assert k in all && k !in used;
    }
  }

  // ----- location 0 -----

  /** The effect of a successful add on pool and head. */
  function AddRaw(pool: seq<Entry>, head: nat, k: nat, e: Entry): (seq<Entry>, nat)
    requires k < |pool|
  {
    (pool[k := e.(next := head)], k + 1)
  }

  /** The condition on add: with a free slot taken, the list is well-formed afterwards exactly when
      the location is not 0. */
  lemma AddSafeIff(pool: seq<Entry>, head: nat, chain: seq<nat>, k: nat, e: Entry)
    requires ChainOk(pool, head, chain) && k < POOL && pool[k].location == 0
    ensures (exists c :: ChainOk(AddRaw(pool, head, k, e).0, AddRaw(pool, head, k, e).1, c)) <==> e.location != 0
  {
    var (p, h) := AddRaw(pool, head, k, e);
    if e.location != 0 {
      Inserted(pool, head, chain, k, e.(next := head));
    } else {
      forall c
        ensures !ChainOk(p, h, c)
      {
        if |c| > 0 && c[0] == k { assert k in c; }
      }
    }
  }

  /** The failing family: a slot filled at location 0 is still free, so the next add takes it again
      and links it to itself. */
  lemma AddAtZeroMakesCycle(pool: seq<Entry>, head: nat, k: nat, e0: Entry, e1: Entry)
    requires |pool| == POOL && k < POOL && pool[k].location == 0 && e0.location == 0
    requires forall j :: 0 <= j < k ==> pool[j].location != 0
    ensures var (p0, h0) := AddRaw(pool, head, k, e0);
            && p0[k].location == 0 && (forall j :: 0 <= j < k ==> p0[j].location != 0)
            && var (p1, h1) := AddRaw(p0, h0, k, e1);
               h1 == k + 1 && p1[k].next == k + 1
  {
  }

  // ----- the program -----

  class BlinkList {
    const pool: array<Entry>    // blink_array
    const video: array<byte>
    var head: nat               // mp1_list_head
    ghost var chain: seq<nat>
    ghost var model: seq<Blinker>

    ghost predicate Valid()
      reads this, pool
    {
      pool.Length == POOL && video.Length == 2 * POOL && ListOk(pool[..], head, chain, model)
    }

    constructor ()
      ensures Valid() && model == [] && fresh(pool) && fresh(video)
    {
      pool := new Entry[POOL](_ => FREE_ENTRY);
      video := new byte[2 * POOL];
      head, chain, model := 0, [], [];
    }

    /** `mp1_malloc`: the first free slot, or NULL. */
    method Malloc() returns (p: nat)
      requires pool.Length == POOL
      ensures p == 0 <==> forall k :: 0 <= k < POOL ==> pool[k].location != 0
      ensures p != 0 ==> p <= POOL && pool[p - 1].location == 0 && forall k :: 0 <= k < p - 1 ==> pool[k].location != 0
    {
      for i := 0 to POOL
        invariant forall k :: 0 <= k < i ==> pool[k].location != 0
      {
        if pool[i].location == 0 {
          return i + 1;
        }
      }
      return 0;
    }

    /** `mp1_ioctl_add`: puts a new blinker of age 0 at the front; fails exactly when the location
        is off the screen or all 2000 slots are in use. */
    method Add(location: nat, onChar: byte, offChar: byte, onLength: nat, offLength: nat) returns (r: int)
      requires Valid() && 0 < location < WORD && onLength < WORD && offLength < WORD
      modifies this, pool, video
      ensures Valid()
      ensures r == 0 <==> location < POOL && |old(model)| < POOL
      ensures r == 0 ==> model == [Blinker(location, onChar, offChar, onLength, offLength, 0)] + old(model)
                         && video[..] == old(video[..])[2 * location := onChar]
      ensures r != 0 ==> r == -1 && model == old(model) && pool[..] == old(pool[..]) && video[..] == old(video[..])
    {
      hide ChainOk, ModelOk;
      ListLength(pool[..], head, chain, model);
      if location >= POOL {
        return -1;
      }
      var e := Entry(location, onChar, offChar, onLength, offLength, onLength, 1, 0);
      var p := Malloc();
      if p == 0 {
        assert forall k :: 0 <= k < POOL ==> pool[..][k].location != 0;
        return -1;
      }
      assert pool[..][p - 1].location == 0;
      e := e.(next := head);
      InsertedList(pool[..], head, chain, model, p - 1, e);
      pool[p - 1] := e;
      assert pool[..] == old(pool[..])[p - 1 := e];
      head := p;
      video[2 * location] := onChar;
      chain, model := [p - 1] + chain, [Blinker(location, onChar, offChar, onLength, offLength, 0)] + model;
      return 0;
    }

    /** `mp1_find_helper`: a pointer to the newest entry at a location, or NULL. */
    method FindHelper(location: nat) returns (p: nat)
      requires Valid()
      ensures p == Pointer(chain, FirstAt(model, location, 0))
    {
      hide Fits, ChainOk, ModelOk;
      ListLength(pool[..], head, chain, model);
      PoolFacts(pool[..], head, chain);
      ghost var i := 0;
      p := head;
      while p != 0
        invariant i <= |chain| && p == Pointer(chain, i)
        invariant FirstAt(model, location, 0) == FirstAt(model, location, i)
        decreases |chain| - i
      {
        ListEntry(pool[..], head, chain, model, i);
        if pool[p - 1].location == location {
          return;
        }
        p := pool[p - 1].next;
        i := i + 1;
      }
    }

    /** `mp1_ioctl_remove`: takes out the newest entry at a location and nothing else. */
    method Remove(location: nat) returns (r: int)
      requires Valid()
      modifies this, pool
      ensures Valid()
      ensures var i := FirstAt(old(model), location, 0);
              if i < |old(model)| then r == 0 && model == Without(old(model), i)
              else r == -1 && model == old(model) && pool[..] == old(pool[..])
    {
      hide Fits, ChainOk, ModelOk, Without;
      ListLength(pool[..], head, chain, model);
      var p := FindHelper(location);
      ghost var i := FirstAt(model, location, 0);
      if p == 0 {
        return -1;
      }
      PoolFacts(pool[..], head, chain);
      RemovedList(pool[..], head, chain, model, i);
      var prev := FindPrev(p, i);
      UnlinkAt(prev, p);
      assert pool[..] == Unlinked(old(pool[..]), old(head), chain, i).0;
      assert head == Unlinked(old(pool[..]), old(head), chain, i).1;
      chain, model := Without(chain, i), Without(model, i);
      return 0;
    }

    /** Stores the successor of `p` in the cell that pointed to it, and clears the struct. */
    method UnlinkAt(prev: nat, p: nat)
      requires pool.Length == POOL && 0 < p <= POOL && prev <= POOL && prev != p
      modifies this`head, pool
      ensures head == (if prev == 0 then old(pool[p - 1]).next else old(head))
      ensures pool[..] == (if prev == 0 then old(pool[..])
                           else old(pool[..])[prev - 1 := old(pool[prev - 1]).(next := old(pool[p - 1]).next)])
                          [p - 1 := FREE_ENTRY]
    {
      var after := pool[p - 1].next;
      if prev == 0 {
        head := after;
      } else {
        pool[prev - 1] := pool[prev - 1].(next := after);
      }
      pool[p - 1] := FREE_ENTRY;
    }

    /** The cell that points to `p`: 0 for the head, otherwise the `next` field of a slot. */
    method FindPrev(p: nat, ghost i: nat) returns (prev: nat)
      requires Valid() && i < |chain| && p == chain[i] + 1
      ensures prev == (if i == 0 then 0 else chain[i - 1] + 1)
    {
      hide Fits, ChainOk, ModelOk;
      PoolFacts(pool[..], head, chain);
      prev := 0;
      ghost var j := 0;
      var target := head;
      while target != p
        invariant j <= i && target == Pointer(chain, j) && prev == (if j == 0 then 0 else chain[j - 1] + 1)
        decreases i - j
      {
        ListEntry(pool[..], head, chain, model, j);
        prev := target;
        target := pool[target - 1].next;
        j := j + 1;
      }
    }

    /** `mp1_rtc_tasklet`: every blinker gets one run older, and those that toggle write their
        character to the screen, in the order of the list; nothing else is written. */
    method Tasklet()
      requires Valid()
      modifies this`model, pool, video
      ensures Valid() && model == Aged(old(model), |old(model)|)
      ensures OnScreen(old(model)) && video[..] == Painted(old(video[..]), old(model), |old(model)|)
    {
      hide Fits, ChainOk, ModelOk, Aged, Toggles;
      ListLength(pool[..], head, chain, model);
      PoolFacts(pool[..], head, chain);
      ghost var i := 0;
      var p := head;
      AgedNone(model);
      AllOnScreen(pool[..], head, chain, model);
      while p != 0
        invariant Valid() && i <= |chain| && p == Pointer(chain, i) && |chain| == |old(model)|
        invariant model == Aged(old(model), i)
        invariant video[..] == Painted(old(video[..]), old(model), i)
        decreases |chain| - i
      {
        AgedNext(old(model), model, i);
        RunEntry(p - 1, i);
        p := pool[p - 1].next;
        i := i + 1;
      }
    }

    /** The loop body for the entry in slot k, the i-th of the list. */
    method RunEntry(k: nat, ghost i: nat)
      requires Valid() && i < |chain| && k == chain[i]
      modifies this`model, pool, video
      ensures Valid() && |old(model)| == |chain| && model == old(model)[i := old(model)[i].Older()]
      ensures k < POOL && pool[k].next == Pointer(chain, i + 1) && old(model)[i].location < POOL
      ensures var b := old(model)[i];
              video[..] == if Toggles(b) then old(video[..])[2 * b.location := b.Older().Char()] else old(video[..])
    {
      hide Fits, ChainOk, ModelOk, Blinker.Char, Toggles;
      ListLength(pool[..], head, chain, model);
      PoolFacts(pool[..], head, chain);
      TickedList(pool[..], head, chain, model, i);
      PoolWords(pool[..], head, chain, model, i);
      var e := pool[k];
      assert e == pool[..][chain[i]];
      var c := Decremented(e.countdown);
      if SignedPositive(c) {
        pool[k] := e.(countdown := c);
      } else if e.status % 2 == 1 {
        video[2 * e.location] := e.offChar;
        pool[k] := e.(countdown := e.offLength, status := 0);
      } else {
        video[2 * e.location] := e.onChar;
        pool[k] := e.(countdown := e.onLength, status := 1);
      }
      assert pool[..] == old(pool[..])[k := Tick(e)];
      model := model[i := model[i].Older()];
    }

    /** Any sequence of adds, removes and tasklet runs. */
    method PerformCalls(cs: seq<Call>)
      requires Valid() && forall c :: c in cs ==> CallOk(c)
      modifies this, pool, video
      ensures Valid() && ListState(old(video[..]), old(model)).Ok()
      ensures ListState(video[..], model) == AfterAll(ListState(old(video[..]), old(model)), cs)
    {
      hide Fits, ChainOk, ModelOk, After;
      AllOnScreen(pool[..], head, chain, model);
      ghost var start := ListState(video[..], model);
      for i := 0 to |cs|
        invariant Valid() && ListState(video[..], model).Ok()
        invariant AfterAll(ListState(video[..], model), cs[i..]) == AfterAll(start, cs)
      {
        assert cs[i..][1..] == cs[i + 1..];
        PerformCall(cs[i]);
      }
    }

    method PerformCall(c: Call)
      requires Valid() && CallOk(c)
      modifies this, pool, video
      ensures Valid() && ListState(old(video[..]), old(model)).Ok()
      ensures ListState(video[..], model) == After(ListState(old(video[..]), old(model)), c)
    {
      hide Fits, ChainOk, ModelOk, Painted, Aged, Without;
      AllOnScreen(pool[..], head, chain, model);
      match c
      case AddCall(location, onChar, offChar, onLength, offLength) =>
        var r := Add(location, onChar, offChar, onLength, offLength);
      case RemoveCall(location) =>
        var r := Remove(location);
      case RunCall =>
        Tasklet();
    }
  }

  // ----- what the screen shows -----

  lemma AgedNone(model: seq<Blinker>)
    ensures Aged(model, 0) == model
  {
  }

  lemma AgedNext(model: seq<Blinker>, m: seq<Blinker>, i: nat)
    requires i < |model| && m == Aged(model, i)
    ensures m[i := m[i].Older()] == Aged(model, i + 1) && m[i] == model[i]
  {
  }

  /** Whatever the other entries do, an address holds what was last written to it: attributes and
      locations at which nothing toggles keep their contents. */
  lemma {:induction false} PaintedNot(v: Bytes, model: seq<Blinker>, n: nat, l: nat)
    requires n <= |model| && |v| == 2 * POOL && OnScreen(model) && l < POOL
    ensures Painted(v, model, n)[2 * l + 1] == v[2 * l + 1]
    ensures (forall j :: 0 <= j < n && model[j].location == l ==> !Toggles(model[j])) ==>
              Painted(v, model, n)[2 * l] == v[2 * l]
  {
    hide Toggles, Blinker.Char;
    if n > 0 { PaintedNot(v, model, n - 1, l); }
  }

  /** Where several entries share a location, the last of them to toggle is seen. */
  lemma {:induction false} PaintedBy(v: Bytes, model: seq<Blinker>, n: nat, j: nat)
    requires j < n <= |model| && |v| == 2 * POOL && OnScreen(model) && Toggles(model[j])
    requires forall k :: j < k < n && model[k].location == model[j].location ==> !Toggles(model[k])
    ensures Painted(v, model, n)[2 * model[j].location] == model[j].Older().Char()
  {
    hide Toggles, Blinker.Char;
    if j < n - 1 { PaintedBy(v, model, n - 1, j); }
  }

  /** No other entry of the list is at the location of the i-th. */
  predicate Alone(model: seq<Blinker>, i: nat)
    requires i < |model|
  {
    forall j :: 0 <= j < |model| && model[j].location == model[i].location ==> j == i
  }

  lemma AloneShown(v: Bytes, model: seq<Blinker>, i: nat)
    requires |v| == 2 * POOL && OnScreen(model) && i < |model| && Alone(model, i)
    requires v[2 * model[i].location] == model[i].Char()
    ensures Painted(v, model, |model|)[2 * model[i].location] == model[i].Older().Char()
  {
    hide Painted;
    if Toggles(model[i]) {
      PaintedBy(v, model, |model|, i);
    } else {
      PaintedNot(v, model, |model|, model[i].location);
    }
  }

  /** The list has an entry `b` at location l, alone there, and the screen shows its character. */
  ghost predicate Shows(s: ListState, l: nat, b: Blinker) {
    && s.Ok() && l < POOL && b.location == l && s.video[2 * l] == b.Char()
    && exists i: nat :: OnlyAt(s.model, i, b)
  }

  ghost predicate OnlyAt(model: seq<Blinker>, i: nat, b: Blinker) { i < |model| && model[i] == b && Alone(model, i) }

  /** The call is not an add or a remove at location l. */
  predicate Elsewhere(c: Call, l: nat) { !c.RunCall? ==> c.location != l }

  lemma ShowsAdd(s: ListState, l: nat, b: Blinker, c: Call)
    requires Shows(s, l, b) && CallOk(c) && c.AddCall? && c.location != l
    ensures Shows(After(s, c), l, b)
  {
    hide Blinker.Char;
    var i: nat :| OnlyAt(s.model, i, b);
    var m := After(s, c).model;
    if m != s.model { assert OnlyAt(m, i + 1, b); }
  }

  lemma ShowsRemove(s: ListState, l: nat, b: Blinker, c: Call)
    requires Shows(s, l, b) && c.RemoveCall? && c.location != l
    ensures Shows(After(s, c), l, b)
  {
    hide Blinker.Char, Without, FirstAt;
    var i: nat :| OnlyAt(s.model, i, b);
    var m, j := After(s, c).model, FirstAt(s.model, c.location, 0);
    if j < |s.model| {
      var k: nat := if i < j then i else i - 1;
      assert m[k] == s.model[Old(j, k)] == b;
      assert OnlyAt(m, k, b);
    }
  }

  lemma ShowsRun(s: ListState, l: nat, b: Blinker)
    requires Shows(s, l, b)
    ensures Shows(After(s, RunCall), l, b.Older())
  {
    hide Blinker.Char, Painted, Aged;
    var i: nat :| OnlyAt(s.model, i, b);
    AloneShown(s.video, s.model, i);
    assert OnlyAt(Aged(s.model, |s.model|), i, b.Older());
  }

  /** Phase law on the screen: in any sequence of calls none of which adds or removes at its location,
      an entry that is alone there goes on showing the character of its state, as many runs older
      as there were runs. */
  lemma {:induction false} ScreenLaw(s: ListState, l: nat, b: Blinker, cs: seq<Call>)
    requires Shows(s, l, b) && forall c :: c in cs ==> CallOk(c) && Elsewhere(c, l)
    ensures Shows(AfterAll(s, cs), l, b.(age := b.age + RunsIn(cs)))
    decreases |cs|
  {
    hide Shows, After;
    ShowsOk(s, l, b);
    if cs != [] {
      assert cs[0] in cs && Elsewhere(cs[0], l);
      match cs[0]
      case AddCall(_, _, _, _, _) =>
        ShowsAdd(s, l, b, cs[0]);
        ScreenLaw(After(s, cs[0]), l, b, cs[1..]);
      case RemoveCall(_) =>
        ShowsRemove(s, l, b, cs[0]);
        ScreenLaw(After(s, cs[0]), l, b, cs[1..]);
      case RunCall =>
        ShowsRun(s, l, b);
        ScreenLaw(After(s, cs[0]), l, b.Older(), cs[1..]);
    }
  }

  lemma ShowsOk(s: ListState, l: nat, b: Blinker)
    requires Shows(s, l, b)
    ensures s.Ok()
  {
  }

  /** From the add on: a new entry at a location where there is no other shows its on-character
      exactly when the runs since then modulo the period are below the on-length, whatever is added
      or removed elsewhere. */
  lemma AddedScreenLaw(s: ListState, c: Call, cs: seq<Call>)
    requires s.Ok() && c.AddCall? && CallOk(c) && c.location < POOL && |s.model| < POOL
    requires forall i :: 0 <= i < |s.model| ==> s.model[i].location != c.location
    requires forall d :: d in cs ==> CallOk(d) && Elsewhere(d, c.location)
    ensures AfterAll(After(s, c), cs).video[2 * c.location]
            == if RunsIn(cs) % (Runs(c.onLength) + Runs(c.offLength)) < Runs(c.onLength) then c.onChar else c.offChar
  {
    var b := Blinker(c.location, c.onChar, c.offChar, c.onLength, c.offLength, 0);
    FreshChar(b);
    hide AfterAll;
    assert OnlyAt(After(s, c).model, 0, b);
    ScreenLaw(After(s, c), c.location, b, cs);
  }

  lemma AllOnScreen(pool: seq<Entry>, head: nat, chain: seq<nat>, model: seq<Blinker>)
    requires ListOk(pool, head, chain, model)
    ensures OnScreen(model)
  {
  }

  lemma ListLength(pool: seq<Entry>, head: nat, chain: seq<nat>, model: seq<Blinker>)
    requires ListOk(pool, head, chain, model)
    ensures |pool| == POOL && |model| == |chain| <= POOL
    ensures |chain| == POOL <==> forall k :: 0 <= k < POOL ==> pool[k].location != 0
  {
    FullIff(pool, head, chain);
  }

  /** What the walk over the list finds in a slot. */
  lemma PoolWords(pool: seq<Entry>, head: nat, chain: seq<nat>, model: seq<Blinker>, i: nat)
    requires ListOk(pool, head, chain, model) && i < |chain|
    ensures chain[i] < |pool| && |model| == |chain|
    ensures model[i].location < POOL && pool[chain[i]].status <= 1
  {
  }
}
