/** The command sequence window and the credits (conn.go, server.go): which message IDs a client may use, and what it is
    told about it. */
module Credits {
  import opened Bytes

  const MAX_SEQUENCE_WINDOW: nat := 65536

  function Max(a: int, b: nat): nat { if a < b then b else a }

  function Min(a: nat, b: nat): nat { if a < b then a else b }

  /** What a request costs: a charge of zero is one. */
  function Spent(charge: uint16): nat { Max(charge, 1) }

  /** `n` IDs from `a` on. */
  function Ids(a: nat, n: nat): (r: set<nat>)
    ensures forall x :: x in r <==> a <= x < a + n
    ensures |r| == n
  {
    if n == 0 then {} else Ids(a, n - 1) + {a + n - 1}
  }

  /** How many credits the answer to a write carries: never less than the write spent, whatever the server has waiting,
      and never more than it asked for beyond that. */
  function CreditsToGrant(charge: uint16, request: uint16, waiting: nat, capacity: nat): (r: nat)
    ensures Spent(charge) <= r <= Max(Spent(charge), request) && charge <= r && 1 <= r
    ensures capacity > 0 && waiting >= capacity / 2 ==> r == Spent(charge)
    ensures capacity == 0 || waiting < capacity / 2 ==> r >= request
  {
    if capacity == 0 then Max(Spent(charge), request)
    else if waiting >= capacity / 2 then Spent(charge)
    else Max(Spent(charge), request)
  }

  /** The sum of the numbers in a map. */
  ghost function Sum(m: map<nat, nat>): nat {
    if m == map[] then 0
    else
      var k :| k in m;
      m[k] + Sum(m - {k})
  }

  lemma {:induction false} SumLess(m: map<nat, nat>, k: nat)
    requires k in m
    ensures Sum(m) == m[k] + Sum(m - {k})
    decreases |m|
  {
    var first :| first in m && Sum(m) == m[first] + Sum(m - {first});
    if first != k {
      SumLess(m - {first}, k);
      SumLess(m - {k}, first);
      assert m - {first} - {k} == m - {k} - {first};
    }
  }

  lemma SumMore(m: map<nat, nat>, k: nat, v: nat)
    requires k !in m
    ensures Sum(m[k := v]) == Sum(m) + v
  {
    SumLess(m[k := v], k);
    assert m[k := v] - {k} == m;
  }

  /** How many IDs a request is granted by a window of `size`: what it asks for, but no more than there is room for, and
      no fewer than it spends. */
  function Grantable(size: nat, numCredits: uint16, charge: uint16): (r: nat)
    ensures Spent(charge) <= r <= Max(numCredits, Spent(charge)) && charge <= r && 1 <= r
    ensures r > Spent(charge) ==> size + r <= MAX_SEQUENCE_WINDOW
    ensures r < numCredits ==> r == Spent(charge) || size + r == MAX_SEQUENCE_WINDOW
  {
    var room: int := MAX_SEQUENCE_WINDOW - size;
    var num := if room < numCredits then Max(room, 0) else numCredits;
    Max(num, Spent(charge))
  }

  datatype Accepted = Accepted | NotWithinWindow | WindowExceeded

  class Connection {
    const multiCredit: bool
    var window: set<nat>

    /** How many credits each request in hand was granted. */
    var creditsGranted: map<nat, nat>

    constructor (multiCredit: bool)
      ensures this.multiCredit == multiCredit && window == {0} && creditsGranted == map[]
    {
      this.multiCredit, window, creditsGranted := multiCredit, {0}, map[];
    }

    method FindMaxKey() returns (m: nat)
      ensures if window == {} then m == 0 else m in window && forall x | x in window :: x <= m
    {
      m := 0;
      var todo := window;
      while todo != {}
        invariant todo <= window
        invariant if window == todo then m == 0 else m in window
        invariant forall x | x in window :: x in todo || x <= m
        decreases todo
      {
        var x :| x in todo;
        todo := todo - {x};
        if x >= m {
          m := x;
        }
      }
    }

    function Room(numCredits: uint16, charge: uint16): nat
      reads this`window
    {
      Grantable(|window|, numCredits, charge)
    }

    /** The highest ID of the window, or the ID of the request where that is no more than zero. */
    method Top(mid: nat) returns (m: nat)
      ensures IsTop(window, mid, m)
    {
      m := FindMaxKey();
      if m == 0 {
        assert forall x | x in window :: x == 0;
        m := mid;
      }
    }

    method OpenIds(from: nat, n: nat)
      modifies this`window
      ensures window == old(window) + Ids(from, n)
    {
      hide Ids;
      IdsAre(from, 0);
      for i := 0 to n
        invariant window == old(window) + Ids(from, i)
      {
        IdsAre(from, i);
        window := window + {from + i};
      }
    }

    /** Opens the window past its highest ID, unless that would take it past the highest number there is. */
    method GrantCredits(mid: nat, numCredits: uint16, charge: uint16) returns (granted: nat, ok: bool, ghost top: nat)
      modifies this`window
      ensures IsTop(old(window), mid, top)
      ensures ok <==> top + old(Room(numCredits, charge)) <= MAX_UINT64
      ensures granted == if ok then old(Room(numCredits, charge)) else 0
      ensures window == old(window) + Ids(top + 1, granted)
    {
      hide Ids, IsTop, Room;
      var num := Room(numCredits, charge);
      var m := Top(mid);
      top := m;
      IdsAre(top + 1, 0);
      if num > MAX_UINT64 - m {
        return 0, false, top;
      }
      OpenIds(m + 1, num);
      return num, true, top;
    }

    /** Takes back as many IDs as were charged for, from the one given on. */
    method RetireMany(mid: nat, spent: nat) returns (ghost upTo: nat)
      modifies this`window
      ensures mid <= upTo && window == old(window) - Ids(mid, upTo - mid)
      ensures |old(window) * Ids(mid, upTo - mid)| <= spent
      ensures |old(window) * Ids(mid, upTo - mid)| == spent || forall x | x in old(window) :: x < upTo
    {
      hide Ids;
      IdsAre(mid, 0);
      var m := FindMaxKey();
      var i, count: nat := mid, 0;
      while i <= m && count < spent
        invariant mid <= i && count <= spent
        invariant window == old(window) - Ids(mid, i - mid)
        invariant count == |old(window) * Ids(mid, i - mid)|
        decreases m + 1 - i
      {
        RetiredOne(old(window), mid, i);
        if i in window {
          window := window - {i};
          count := count + 1;
        }
        i := i + 1;
      }
      upTo := i;
    }

    /** Takes back the IDs a request spent: the one it came under, or as many as it charged for from that one on. */
    method RetireMessageID(mid: nat, charge: uint16) returns (ghost upTo: nat)
      modifies this`window
      ensures Retires(old(window), window, mid, charge, multiCredit, upTo)
      ensures var n := if multiCredit && charge > 0 then charge else 1;
              Ids(mid, n) <= old(window) ==> window == old(window) - Ids(mid, n)
    {
      hide Ids;
      if !multiCredit {
        IdsAre(mid, 0);
        window := window - {mid};
        return mid + 1;
      }
      upTo := RetireMany(mid, Spent(charge));
      if Ids(mid, Spent(charge)) <= old(window) {
        RetiresJust(old(window), mid, Spent(charge), upTo);
      }
    }

    /** A request comes in: it is granted credits, looked up in the window, and retired. */
    method AcceptRequest(mid: nat, charge: uint16, request: uint16)
      returns (r: Accepted, granted: nat, ok: bool, ghost top: nat, ghost upTo: nat)
      modifies this
      ensures var numCredits: uint16 := Max(Max(charge, request), 1);
              && IsTop(old(window), mid, top)
              && (ok <==> top + old(Room(numCredits, charge)) <= MAX_UINT64)
              && granted == (if ok then old(Room(numCredits, charge)) else 0)
      ensures creditsGranted == old(creditsGranted)[mid := granted]
      ensures r == NotWithinWindow <==> mid !in old(window) + Ids(top + 1, granted)
      ensures r == WindowExceeded <==> mid in old(window) + Ids(top + 1, granted) && mid == MAX_UINT64
      ensures r != Accepted.Accepted ==> window == old(window) + Ids(top + 1, granted)
      ensures r == Accepted.Accepted ==> Retires(old(window) + Ids(top + 1, granted), window, mid, charge, multiCredit, upTo)
      ensures r == Accepted.Accepted ==>
                var open, n := old(window) + Ids(top + 1, granted), if multiCredit && charge > 0 then charge else 1;
                Ids(mid, n) <= open ==> window == open - Ids(mid, n)
    {
      hide Ids, IsTop, Retires;
      var credits: uint16 := if charge < request then request else charge;
      if credits == 0 {
        credits := 1;
      }
      granted, ok, top := GrantCredits(mid, credits, charge);
      creditsGranted := creditsGranted[mid := granted];
      upTo := mid;
      if mid !in window {
        return NotWithinWindow, granted, ok, top, upTo;
      }
      if mid == MAX_UINT64 {
        return WindowExceeded, granted, ok, top, upTo;
      }
      upTo := RetireMessageID(mid, charge);
      r := Accepted.Accepted;
    }

    /** Settles the credits an answer goes out with: what the request was granted, but no more than the answer meant to
        grant. The first answer takes the grant. */
    method GrantOnResponse(mid: nat, carried: uint16) returns (credits: nat)
      modifies this`creditsGranted
      ensures mid in old(creditsGranted) ==> credits == Min(carried, old(creditsGranted)[mid])
      ensures mid !in old(creditsGranted) ==> credits == carried
      ensures creditsGranted == old(creditsGranted) - {mid}
    {
      if mid !in creditsGranted {
        return carried;
      }
      var granted := creditsGranted[mid];
      creditsGranted := creditsGranted - {mid};
      credits := if carried < granted then carried else granted;
    }
  }

  lemma RetiredOne(w: set<nat>, mid: nat, i: nat)
    requires mid <= i
    ensures |w * Ids(mid, i + 1 - mid)| == |w * Ids(mid, i - mid)| + if i in w then 1 else 0
    ensures w - Ids(mid, i + 1 - mid) == w - Ids(mid, i - mid) - {i} && (i in w - Ids(mid, i - mid) <==> i in w)
  {
    hide Ids;
    IdsAre(mid, i - mid);
    OneMoreTaken(w, Ids(mid, i - mid), i);
  }

  lemma OneMoreTaken(w: set<nat>, ids: set<nat>, i: nat)
    requires i !in ids
    ensures |w * (ids + {i})| == |w * ids| + if i in w then 1 else 0
    ensures w - (ids + {i}) == w - ids - {i}
  {
    assert w * (ids + {i}) == if i in w then w * ids + {i} else w * ids;
  }

  /** If all the IDs charged for are there, just those go. */
  lemma RetiresJust(w: set<nat>, mid: nat, n: nat, upTo: nat)
    requires 0 < n && Ids(mid, n) <= w && mid <= upTo && |w * Ids(mid, upTo - mid)| <= n
    requires |w * Ids(mid, upTo - mid)| == n || forall x | x in w :: x < upTo
    ensures w - Ids(mid, upTo - mid) == w - Ids(mid, n)
  {
    var taken := w * Ids(mid, upTo - mid);
    if upTo - mid <= n {
      assert taken == Ids(mid, upTo - mid);
      assert mid + n - 1 in Ids(mid, n);
    } else {
      assert Ids(mid, n) <= taken;
      SameSize(Ids(mid, n), taken);
    }
  }

  lemma SameSize(a: set<nat>, b: set<nat>)
    requires a <= b && |b| <= |a|
    ensures a == b
  {
    assert |b - a| == |b| - |a|;
  }

  /** `w` without the IDs from `mid` up to `upTo`: the one, or as many as were charged for if there are that many. */
  ghost predicate Retires(w: set<nat>, w': set<nat>, mid: nat, charge: uint16, multiCredit: bool, upTo: nat) {
    && mid <= upTo && w' == w - Ids(mid, upTo - mid)
    && if multiCredit then
         var gone := |w * Ids(mid, upTo - mid)|;
         gone <= Spent(charge) && (gone == Spent(charge) || forall x | x in w :: x < upTo)
       else upTo == mid + 1
  }

  ghost predicate IsTop(window: set<nat>, mid: nat, m: nat) {
    if window == {} || window == {0} then m == mid else m in window && forall x | x in window :: x <= m
  }

  lemma IdsAre(a: nat, n: nat)
    ensures Ids(a, 0) == {} && Ids(a, n + 1) == Ids(a, n) + {a + n}
  {
  }

  // A client and its connection

  /** A request on its way. */
  datatype Request = Request(mid: nat, charge: uint16, request: uint16)

  function Cost(wire: seq<Request>): nat {
    if wire == [] then 0 else Spent(wire[0].charge) + Cost(wire[1..])
  }

  lemma {:induction false} CostMore(wire: seq<Request>, r: Request)
    ensures Cost(wire + [r]) == Cost(wire) + Spent(r.charge)
  {
    if wire != [] {
      CostMore(wire[1..], r);
      assert (wire + [r])[1..] == wire[1..] + [r];
    } else {
      assert (wire + [r])[1..] == [];
    }
  }

  /** The requests on the way carry IDs one after the other, each as many further on as the one before it cost. */
  ghost predicate Consecutive(wire: seq<Request>, lo: nat) {
    wire == [] || (wire[0].mid == lo && Consecutive(wire[1..], lo + Spent(wire[0].charge)))
  }

  lemma {:induction false} ConsecutiveMore(wire: seq<Request>, lo: nat, r: Request)
    requires Consecutive(wire, lo) && r.mid == lo + Cost(wire)
    ensures Consecutive(wire + [r], lo)
  {
    if wire != [] {
      ConsecutiveMore(wire[1..], lo + Spent(wire[0].charge), r);
      assert (wire + [r])[1..] == wire[1..] + [r];
    } else {
      assert (wire + [r])[1..] == [];
    }
  }

  /** The window is `n` IDs in a row from the next one to come in on, never too many, and enough for what the client holds,
      what it has sent, what it is about to be told and what it is still owed. */
  ghost predicate Covered(window: set<nat>, granted: map<nat, nat>, lo: nat, n: nat, held: nat, wire: seq<Request>, coming: nat) {
    && window == Ids(lo, n) && n <= MAX_SEQUENCE_WINDOW
    && held + Cost(wire) + coming + Sum(granted) <= n
    && forall k | k in granted :: k < lo
  }

  lemma TopOfRow(lo: nat, n: nat, top: nat)
    requires n > 0 && IsTop(Ids(lo, n), lo, top)
    ensures top == lo + n - 1
  {
    assert lo in Ids(lo, n) && lo + n - 1 in Ids(lo, n);
  }

  lemma RowsJoin(lo: nat, n: nat, g: nat)
    ensures Ids(lo, n) + Ids(lo + n, g) == Ids(lo, n + g)
  {
  }

  lemma RowsMeet(lo: nat, n: nat, m: nat)
    ensures Ids(lo, n) * Ids(lo, m) == Ids(lo, Min(n, m)) && Ids(lo, n) - Ids(lo, m) == Ids(lo + Min(n, m), n - Min(n, m))
    ensures |Ids(lo, Min(n, m))| == Min(n, m) && (n > 0 ==> lo + n - 1 in Ids(lo, n))
  {
  }

  /** Retiring from the front of a row leaves the rest of the row. */
  lemma RetiresFront(lo: nat, n: nat, w': set<nat>, charge: uint16, multiCredit: bool, upTo: nat)
    requires Retires(Ids(lo, n), w', lo, charge, multiCredit, upTo) && Spent(charge) <= n && (!multiCredit ==> charge <= 1)
    ensures w' == Ids(lo + Spent(charge), n - Spent(charge))
  {
    hide Ids;
    RowsMeet(lo, n, upTo - lo);
  }

  /** A request that comes in leaves everything covered. */
  lemma AcceptCovers(w: set<nat>, granted: map<nat, nat>, lo: nat, n: nat, held: nat, wire: seq<Request>, coming: nat,
                     top: nat, g: nat, w': set<nat>, multiCredit: bool, upTo: nat)
    requires Covered(w, granted, lo, n, held, wire, coming) && wire != [] && (!multiCredit ==> wire[0].charge <= 1)
    requires IsTop(w, lo, top) && (g == 0 || g >= Spent(wire[0].charge))
    requires g > Spent(wire[0].charge) ==> n + g <= MAX_SEQUENCE_WINDOW
    requires Retires(w + Ids(top + 1, g), w', lo, wire[0].charge, multiCredit, upTo)
    ensures var s := Spent(wire[0].charge);
            Covered(w', granted[lo := g], lo + s, n + g - s, held, wire[1..], coming)
  {
    hide Ids, IsTop, Retires, Sum;
    var s := Spent(wire[0].charge);
    TopOfRow(lo, n, top);
    RowsJoin(lo, n, g);
    RetiresFront(lo, n + g, w', wire[0].charge, multiCredit, upTo);
    SumMore(granted, lo, g);
  }

  /** What a request is granted by a window of `n` IDs in a row from its own on: nothing, if that would take the window
      past the highest number there is. */
  function Grant(lo: nat, n: nat, r: Request): (g: nat)
    ensures g == 0 || g >= Spent(r.charge)
    ensures g == 0 ==> lo + n + 0xffff > MAX_UINT64
  {
    var g := Grantable(n, Max(Max(r.charge, r.request), 1), r.charge);
    if lo + n - 1 + g <= MAX_UINT64 then g else 0
  }

  datatype Event =
    | Send(charge: uint16, request: uint16)
    | Arrive
    | Answer(mid: nat, carried: uint16)
    | AnswerAsync(mid: nat)
    | Learn

  /** The request that has come first is taken in. Its IDs were open before it was granted anything. */
  method TakeIn(c: Connection, wire: seq<Request>, ghost lo: nat, ghost n: nat, ghost held: nat, ghost coming: nat)
    returns (r: Accepted, ghost g: nat)
    requires Covered(c.window, c.creditsGranted, lo, n, held, wire, coming)
    requires wire != [] && Consecutive(wire, lo) && (!c.multiCredit ==> wire[0].charge <= 1)
    modifies c
    ensures g == Grant(lo, n, wire[0]) && c.creditsGranted == old(c.creditsGranted)[lo := g]
    ensures wire[0].mid == lo && Spent(wire[0].charge) <= n
    ensures r == if lo == MAX_UINT64 then WindowExceeded else Accepted.Accepted
    ensures r == WindowExceeded ==> c.window == old(c.window)
    ensures r == Accepted.Accepted ==>
              var s := Spent(wire[0].charge);
              Covered(c.window, c.creditsGranted, lo + s, n + g - s, held, wire[1..], coming)
    ensures r == Accepted.Accepted ==>
              |c.window| + (if wire[0].charge == 0 then 1 else wire[0].charge) == |old(c.window)| + g
  {
    hide Ids, IsTop, Retires, Sum;
    var mid, charge := wire[0].mid, wire[0].charge;
    ghost var w, granted := c.window, c.creditsGranted;
    Within(lo, n, Spent(charge));
    var num, ok;
    ghost var top, upTo;
    r, num, ok, top, upTo := c.AcceptRequest(mid, charge, wire[0].request);
    g := num;
    TopOfRow(lo, n, top);
    NoIds(top + 1);
    if r == Accepted.Accepted {
      AcceptCovers(w, granted, lo, n, held, wire, coming, top, g, c.window, c.multiCredit, upTo);
    }
  }

  lemma NoIds(a: nat)
    ensures Ids(a, 0) == {}
  {
  }

  lemma AtFirst()
    ensures Covered({0}, map[], 0, 1, 1, [], 0) && Consecutive([], 0) && Cost([]) == 0
  {
    assert Ids(0, 1) == {0};
  }

  lemma Sending(w: set<nat>, granted: map<nat, nat>, lo: nat, n: nat, held: nat, wire: seq<Request>, coming: nat, r: Request)
    requires Covered(w, granted, lo, n, held, wire, coming) && Consecutive(wire, lo)
    requires r.mid == lo + Cost(wire) && Spent(r.charge) <= held
    ensures Covered(w, granted, lo, n, held - Spent(r.charge), wire + [r], coming)
    ensures Consecutive(wire + [r], lo) && Cost(wire + [r]) == Cost(wire) + Spent(r.charge)
  {
    hide Ids, Sum;
    CostMore(wire, r);
    ConsecutiveMore(wire, lo, r);
  }

  lemma Arriving(wire: seq<Request>, lo: nat)
    requires Consecutive(wire, lo) && wire != []
    ensures wire[0].mid == lo && Consecutive(wire[1..], lo + Spent(wire[0].charge))
    ensures Cost(wire) == Spent(wire[0].charge) + Cost(wire[1..])
  {
  }

  lemma Learning(w: set<nat>, granted: map<nat, nat>, lo: nat, n: nat, held: nat, wire: seq<Request>, coming: nat)
    requires Covered(w, granted, lo, n, held, wire, coming)
    ensures Covered(w, granted, lo, n, held + coming, wire, 0)
  {
  }

  lemma CoveredMeans(w: set<nat>, granted: map<nat, nat>, lo: nat, n: nat, held: nat, wire: seq<Request>, coming: nat)
    requires Covered(w, granted, lo, n, held, wire, coming)
    ensures |w| == n && w == Ids(lo, n) && held <= n <= MAX_SEQUENCE_WINDOW
  {
  }

  lemma Within(lo: nat, n: nat, s: nat)
    requires 0 < s <= n
    ensures Ids(lo, s) <= Ids(lo, n) && lo in Ids(lo, n) && |Ids(lo, n)| == n
  {
  }

  /** An answer goes out, with the credits it hands back. */
  method Settle(c: Connection, mid: nat, carried: uint16, ghost lo: nat, ghost n: nat, ghost held: nat, ghost wire: seq<Request>,
                ghost coming: nat)
    returns (credits: nat)
    requires Covered(c.window, c.creditsGranted, lo, n, held, wire, coming) && (carried == 0 || mid in c.creditsGranted)
    modifies c`creditsGranted
    ensures credits == if mid in old(c.creditsGranted) then Min(carried, old(c.creditsGranted)[mid]) else 0
    ensures c.creditsGranted == old(c.creditsGranted) - {mid}
    ensures Covered(c.window, c.creditsGranted, lo, n, held, wire, coming + credits)
  {
    hide Ids, Sum;
    if mid in c.creditsGranted {
      SumLess(c.creditsGranted, mid);
    } else {
      assert c.creditsGranted - {mid} == c.creditsGranted;
    }
    credits := c.GrantOnResponse(mid, carried);
  }

  /** A client and its connection as a value. The window is `n` IDs in a row from `lo` on; `full` says that a grant
      would have taken it past the highest number, and `closed` that a request used that number up. */
  datatype Link = Link(lo: nat, n: nat, held: nat, wire: seq<Request>, coming: nat, granted: map<nat, nat>,
                       taken: seq<Request>, full: bool, closed: bool) {
    function Sends(multiCredit: bool, charge: uint16, request: uint16): Link {
      if Spent(charge) <= held && (multiCredit || charge <= 1) then
        this.(held := held - Spent(charge), wire := wire + [Request(lo + Cost(wire), charge, request)])
      else this
    }

    /** The request that was sent first comes in, is granted its credits and uses up its IDs. */
    function TakesIn(): Link
      requires wire != []
    {
      var g, s := Grant(lo, n, wire[0]), Spent(wire[0].charge);
      if lo == MAX_UINT64 then this.(granted := granted[lo := g], closed := true)
      else Link(lo + s, Max(n + g - s, 0), held, wire[1..], coming, granted[lo := g], taken + [wire[0]], full || g == 0, false)
    }

    function Answers(mid: nat, carried: uint16): Link {
      if mid in granted then this.(coming := coming + Min(carried, granted[mid]), granted := granted - {mid}) else this
    }

    function Next(multiCredit: bool, e: Event): Link {
      if closed then this
      else
        match e
        case Send(charge, request) => Sends(multiCredit, charge, request)
        case Arrive => if wire == [] then this else TakesIn()
        case Answer(mid, carried) => Answers(mid, carried)
        case AnswerAsync(mid) => Answers(mid, 0)
        case Learn => this.(held := held + coming, coming := 0)
    }

    /** The IDs of the request that comes in next are open before it is granted anything. */
    ghost predicate Opened() {
      wire != [] ==> Ids(wire[0].mid, Spent(wire[0].charge)) <= Ids(lo, n)
    }
  }

  function After(multiCredit: bool, events: seq<Event>): Link {
    if events == [] then Link(0, 1, 1, [], 0, map[], [], false, false)
    else After(multiCredit, events[..|events| - 1]).Next(multiCredit, events[|events| - 1])
  }

  lemma AfterNext(multiCredit: bool, events: seq<Event>, i: nat)
    requires i < |events|
    ensures After(multiCredit, events[..i + 1]) == After(multiCredit, events[..i]).Next(multiCredit, events[i])
    ensures After(multiCredit, events[..i]).closed ==> After(multiCredit, events[..i + 1]) == After(multiCredit, events[..i])
  {
    assert events[..i + 1][..i] == events[..i];
  }

  /** What the client holds and what is on its way fit the window, and nothing is wrong with the requests. */
  ghost predicate Sound(multiCredit: bool, l: Link) {
    && Covered(Ids(l.lo, l.n), l.granted, l.lo, l.n, l.held, l.wire, l.coming) && Consecutive(l.wire, l.lo)
    && (!multiCredit ==> forall r | r in l.wire :: r.charge <= 1)
    && (if l.full then l.lo + l.n + 0xffff > MAX_UINT64 else l.n > 0)
  }

  lemma SoundMeans(multiCredit: bool, l: Link)
    requires Sound(multiCredit, l)
    ensures l.Opened() && l.held <= l.n <= MAX_SEQUENCE_WINDOW
  {
    hide Ids, Sum;
    if l.wire != [] {
      Within(l.lo, l.n, Spent(l.wire[0].charge));
    }
  }

  /** One event. The connection follows the value. */
  method Step(c: Connection, l: Link, e: Event) returns (l': Link, outcome: Accepted)
    requires Sound(c.multiCredit, l) && !l.closed && c.window == Ids(l.lo, l.n) && c.creditsGranted == l.granted
    modifies c
    ensures l' == l.Next(c.multiCredit, e) && outcome != NotWithinWindow
    ensures c.window == Ids(l'.lo, l'.n) && c.creditsGranted == l'.granted
    ensures if l'.closed then l'.lo == MAX_UINT64 else Sound(c.multiCredit, l')
    ensures l'.Opened() && l'.held <= l'.n <= MAX_SEQUENCE_WINDOW
  {
    hide Ids, IsTop, Retires, Sum, Covered, Consecutive, Cost, Grant;
    SoundMeans(c.multiCredit, l);
    l', outcome := l.Next(c.multiCredit, e), Accepted.Accepted;
    match e {
      case Send(charge, request) =>
        if Spent(charge) <= l.held && (c.multiCredit || charge <= 1) {
          Sending(c.window, l.granted, l.lo, l.n, l.held, l.wire, l.coming, Request(l.lo + Cost(l.wire), charge, request));
        }
      case Arrive =>
        if l.wire != [] {
          Arriving(l.wire, l.lo);
          ghost var g;
          outcome, g := TakeIn(c, l.wire, l.lo, l.n, l.held, l.coming);
          if outcome == Accepted.Accepted {
            CoveredMeans(c.window, l'.granted, l'.lo, l'.n, l'.held, l'.wire, l'.coming);
          }
        }
      case Answer(mid, carried) =>
        if mid in c.creditsGranted {
          var _ := Settle(c, mid, carried, l.lo, l.n, l.held, l.wire, l.coming);
        }
      case AnswerAsync(mid) =>
        assert mid !in l.granted ==> l.granted - {mid} == l.granted;
        var _ := Settle(c, mid, 0, l.lo, l.n, l.held, l.wire, l.coming);
      case Learn =>
        Learning(c.window, l.granted, l.lo, l.n, l.held, l.wire, l.coming);
    }
    if !l'.closed {
      SoundMeans(c.multiCredit, l');
    }
  }

  /** Any run of a client that sends within its credits, on a connection whose answers hand them back once. Every request
      that comes in is taken in, its IDs open before it is granted anything; the window stays in one row, no longer than
      it may be, not empty, and no shorter than the credits the client holds, until the IDs themselves run out. */
  method Run(multiCredit: bool, events: seq<Event>)
    returns (window: set<nat>, held: nat, taken: seq<Request>, turnedAway: bool)
    ensures var l := After(multiCredit, events);
            && window == Ids(l.lo, l.n) && held == l.held && taken == l.taken
            && held <= |window| <= MAX_SEQUENCE_WINDOW
            && (!l.full && !l.closed ==> window != {})
            && (l.full || l.closed ==> l.lo + |window| + 0xffff > MAX_UINT64)
    ensures !turnedAway && forall i | 0 <= i < |events| :: After(multiCredit, events[..i]).Opened()
  {
    hide Ids, Sum, Covered, Consecutive, Cost, Link.Next, Link.Opened;
    var c := new Connection(multiCredit);
    var l := Link(0, 1, 1, [], 0, map[], [], false, false);
    turnedAway := false;
    AtFirst();
    SoundMeans(multiCredit, l);
    for i := 0 to |events|
      invariant fresh(c) && c.multiCredit == multiCredit && !turnedAway
      invariant l == After(multiCredit, events[..i]) && c.window == Ids(l.lo, l.n)
      invariant l.held <= l.n <= MAX_SEQUENCE_WINDOW
      invariant if l.closed then l.lo == MAX_UINT64 else Sound(multiCredit, l) && c.creditsGranted == l.granted
      invariant l.Opened()
      invariant forall k | 0 <= k < i :: After(multiCredit, events[..k]).Opened()
    {
      AfterNext(multiCredit, events, i);
      if !l.closed {
        var outcome;
        l, outcome := Step(c, l, events[i]);
        turnedAway := turnedAway || outcome == NotWithinWindow;
      }
    }
    assert events[..|events|] == events;
    window, held, taken := c.window, l.held, l.taken;
  }
}
