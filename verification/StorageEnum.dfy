/** Storage device enumeration (uboot/api/api_storage.c) and its driver (uboot/api/api.c): a
    cookie-driven protocol over five storage groups with started/ended flags. */
module StorageEnum {

  datatype Option<T> = None | Some(value: T)

  /** A block device descriptor; `id` stands for its address. */
  datatype Block = Block(id: nat, active: bool, lba: nat, blksz: nat)

  datatype Cookie = Null | Net | Stor(dev: Block)

  const ENUM_MAX := 5
  const DEV_TYP_NET := 0x0001
  const DEV_TYP_STOR := 0x0002
  const API_ENODEV := 2

  // groups
  const ENUM_IDE := 0
  const ENUM_USB := 1
  const ENUM_SCSI := 2
  const ENUM_MMC := 3
  const ENUM_SATA := 4

  const DT_STOR_IDE := 0x0010
  const DT_STOR_SCSI := 0x0020
  const DT_STOR_USB := 0x0040
  const DT_STOR_MMC := 0x0080
  const DT_STOR_SATA := 0x0100

  /** External type of a group: DEV_TYP_STOR with the bit of the group. */
  function GroupType(g: nat): nat {
    DEV_TYP_STOR +
    if g == ENUM_IDE then DT_STOR_IDE else if g == ENUM_USB then DT_STOR_USB
    else if g == ENUM_SCSI then DT_STOR_SCSI else if g == ENUM_MMC then DT_STOR_MMC else DT_STOR_SATA
  }

  /** The type words that a client sees, in the order of the groups IDE, USB, SCSI, MMC, SATA. */
  lemma TypeWords(g: nat)
    requires g < 5
    ensures GroupType(g) == [0x12, 0x42, 0x22, 0x82, 0x102][g]
  {
  }

  /** The devices of each group, by index; a group that is not configured has none. */
  type Groups = seq<seq<Option<Block>>>

  ghost predicate ValidGroups(gs: Groups) {
    |gs| == ENUM_MAX &&
    forall b, g, i, h, j :: At(gs, b, g, i) && At(gs, b, h, j) ==> g == h && i == j
  }

  predicate IsActive(d: Option<Block>) { d.Some? && d.value.active }

  ghost predicate At(gs: Groups, b: Block, g: int, i: int) {
    0 <= g < |gs| && 0 <= i < |gs[g]| && gs[g][i] == Some(b)
  }

  // ---------------------------------------------------------------- the list

  datatype Pos = Pos(group: nat, index: nat)

  /** Positions still to come from index `i` of group `g` on: the present and active devices
      up to the first gap of the group, then those of the following groups. */
  ghost function Positions(gs: Groups, g: nat, i: nat): seq<Pos>
    decreases |gs| - g, if g < |gs| then |gs[g]| - i else 0
  {
    if g >= |gs| then []
    else if i < |gs[g]| && IsActive(gs[g][i]) then [Pos(g, i)] + Positions(gs, g, i + 1)
    else Positions(gs, g + 1, 0)
  }

  ghost predicate IsPos(gs: Groups, p: Pos) {
    p.group < |gs| && p.index < |gs[p.group]| && IsActive(gs[p.group][p.index])
  }

  ghost function CookieOf(gs: Groups, p: Pos): Cookie {
    if IsPos(gs, p) then Stor(gs[p.group][p.index].value) else Null
  }

  ghost function CookiesOf(gs: Groups, ps: seq<Pos>): seq<Cookie> {
    seq(|ps|, n requires 0 <= n < |ps| => CookieOf(gs, ps[n]))
  }

  /** The cookie names no device of group `g`. */
  ghost predicate Foreign(gs: Groups, c: Cookie, g: nat) {
    c.Stor? ==> forall i :: !At(gs, c.dev, g, i)
  }

  lemma ForeignElsewhere(gs: Groups, c: Cookie, g: nat, i: int)
    requires ValidGroups(gs) && c.Stor? && At(gs, c.dev, g, i)
    ensures forall k: nat :: k != g ==> Foreign(gs, c, k)
  {
  }

  // ---------------------------------------------------------------- the protocol

  class Enumerator {
    const gs: Groups
    const net: bool

    // specs[].enum_started, specs[].enum_ended
    var started: seq<bool>
    var ended: seq<bool>

    // struct device_info
    var cookie: Cookie
    var diType: nat
    var blockCount: nat
    var blockSize: nat

    constructor (gs: Groups, net: bool)
      requires ValidGroups(gs)
      ensures Valid() && this.gs == gs && this.net == net && cookie == Null
    {
      this.gs, this.net := gs, net;
      started, ended := seq(ENUM_MAX, _ => false), seq(ENUM_MAX, _ => false);
      cookie, diType, blockCount, blockSize := Null, 0, 0, 0;
    }

    ghost predicate Valid()
      reads this
    {
      ValidGroups(gs) && |started| == ENUM_MAX && |ended| == ENUM_MAX
    }

    /** Group `g` takes no part in the run yet. */
    predicate Untouched(g: nat)
      requires g < |started| && g < |ended|
      reads this
    {
      !started[g] && !ended[g]
    }

    /** The device_info fields describe device `b` of group `g`. */
    ghost predicate Describes(g: nat, b: Block)
      reads this
    {
      cookie == Stor(b) && diType == GroupType(g) && blockCount == b.lba && blockSize == b.blksz
    }

    function GetDev(g: nat, i: nat): Option<Block>
      requires g < |gs|
    {
      if i < |gs[g]| then gs[g][i] else None
    }

    /** Fills in device_info after a device was found present. */
    method Describe(g: nat, dev: Block) returns (found: bool)
      requires cookie == Stor(dev)
      modifies this`diType, this`blockCount, this`blockSize
      ensures found == dev.active && (found ==> Describes(g, dev))
    {
      diType := GroupType(g);
      found := dev.active;
      if found {
        blockCount, blockSize := dev.lba, dev.blksz;
      }
    }

    method DevStorGetFirst(g: nat) returns (found: bool, more: bool)
      requires Valid() && g < ENUM_MAX
      modifies this`cookie, this`diType, this`blockCount, this`blockSize
      ensures found <==> |gs[g]| > 0 && IsActive(gs[g][0])
      ensures found ==> Describes(g, gs[g][0].value) && more == (1 < |gs[g]|)
      ensures !found ==> cookie == Null || (exists b :: cookie == Stor(b) && At(gs, b, g, 0))
    {
      more := false;
      var dev := GetDev(g, 0);
      if dev.None? {
        cookie := Null;
        return false, false;
      }
      cookie := Stor(dev.value);
      more := 1 < |gs[g]|;
      found := Describe(g, dev.value);
    }

    /** Advances from the device in the cookie to the next one of the group. */
    method DevStorGetNext(g: nat, ghost at: nat) returns (found: bool, more: bool)
      requires Valid() && g < ENUM_MAX && cookie.Stor? && At(gs, cookie.dev, g, at)
      modifies this`cookie, this`diType, this`blockCount, this`blockSize
      ensures found <==> at + 1 < |gs[g]| && IsActive(gs[g][at + 1])
      ensures found ==> Describes(g, gs[g][at + 1].value) && more == (at + 2 < |gs[g]|)
      ensures !found ==> cookie == Null || (exists b :: cookie == Stor(b) && At(gs, b, g, at + 1))
    {
      found, more := false, false;
      var i := 0;
      while i < |gs[g]|
        invariant 0 <= i <= at
      {
        if Some(cookie.dev) == GetDev(g, i) {
          assert At(gs, cookie.dev, g, i);
          i := i + 1;
          if i >= |gs[g]| {
            cookie := Null;
            return false, false;
          }
          var dev := GetDev(g, i);
          if dev.None? {
            cookie := Null;
            return false, false;
          }
          cookie := Stor(dev.value);
          more := i + 1 < |gs[g]|;
          found := Describe(g, dev.value);
          return;
        }
        i := i + 1;
      }
    }

    /** The group that holds a device, or ENUM_MAX. */
    method DevStorType(b: Block) returns (g: nat)
      requires Valid()
      ensures g <= ENUM_MAX
      ensures g < ENUM_MAX ==> exists i :: At(gs, b, g, i)
      ensures g == ENUM_MAX ==> forall h, i :: !At(gs, b, h, i)
    {
      g := 0;
      while g < ENUM_MAX
        invariant g <= ENUM_MAX
        invariant forall h, i :: h < g ==> !At(gs, b, h, i)
      {
        var j := 0;
        while j < |gs[g]|
          invariant 0 <= j <= |gs[g]|
          invariant forall i :: i < j ==> !At(gs, b, g, i)
        {
          if GetDev(g, j) == Some(b) {
            assert At(gs, b, g, j);
            return;
          }
          j := j + 1;
        }
        g := g + 1;
      }
    }

    method DevIsStor(g: nat) returns (yes: bool)
      requires Valid() && g < ENUM_MAX
      ensures yes <==> cookie.Stor? && exists i :: At(gs, cookie.dev, g, i)
    {
      if cookie.Stor? {
        var t := DevStorType(cookie.dev);
        return t == g;
      }
      return false;
    }

    /** Flags of all groups but `g` are as they were. */
    ghost predicate OthersKept(started0: seq<bool>, ended0: seq<bool>, g: nat)
      requires |started0| == ENUM_MAX && |ended0| == ENUM_MAX && g < ENUM_MAX
      reads this
    {
      |started| == ENUM_MAX && |ended| == ENUM_MAX &&
      forall k :: 0 <= k < ENUM_MAX && k != g ==> started[k] == started0[k] && ended[k] == ended0[k]
    }

    /** One group's turn. The cookie is at index `at` of the group, or foreign to it. */
    method DevEnumStor(g: nat, ghost at: nat) returns (found: bool)
      requires Valid() && g < ENUM_MAX
      requires (cookie.Stor? && At(gs, cookie.dev, g, at) && started[g] && ended[g] == !(at + 1 < |gs[g]|)) ||
               (Foreign(gs, cookie, g) && (Untouched(g) || (started[g] && cookie != Null)))
      modifies this`started, this`ended, this`cookie, this`diType, this`blockCount, this`blockSize
      ensures Valid() && started[g] && OthersKept(old(started), old(ended), g)
      ensures old(Foreign(gs, cookie, g) && started[g]) ==> !found && cookie == old(cookie)
      ensures old(Foreign(gs, cookie, g) && Untouched(g)) ==>
        (if |gs[g]| > 0 && IsActive(gs[g][0]) then
           found && Describes(g, gs[g][0].value) && ended[g] == !(1 < |gs[g]|)
         else !found)
      ensures old(cookie.Stor? && At(gs, cookie.dev, g, at)) ==>
        (if at + 1 < |gs[g]| && IsActive(gs[g][at + 1]) then
           found && Describes(g, gs[g][at + 1].value) && ended[g] == !(at + 2 < |gs[g]|)
         else !found)
      ensures cookie != old(cookie) && !found ==>
        cookie == Null || (cookie.Stor? && exists i :: At(gs, cookie.dev, g, i))
    {
      var more;
      found, more := false, false;
      var ours := DevIsStor(g);
      if cookie == Null {
        found, more := DevStorGetFirst(g);
        started := started[g := true];
      } else if ours {
        if ended[g] {
          return false;
        }
        found, more := DevStorGetNext(g, at);
      } else {
        if ended[g] {
          return false;
        }
        if !started[g] {
          started := started[g := true];
          found, more := DevStorGetFirst(g);
        }
      }
      ended := ended[g := !more];
    }

    /** The run stands at position `p`: groups up to it are started, later ones untouched. */
    ghost predicate Standing(p: Pos)
      requires Valid()
      reads this
    {
      && IsPos(gs, p) && cookie == CookieOf(gs, p)
      && (forall k :: 0 <= k <= p.group ==> started[k])
      && (forall k :: p.group < k < ENUM_MAX ==> !started[k] && !ended[k])
      && ended[p.group] == !(p.index + 1 < |gs[p.group]|)
    }

    /** No storage group was enumerated yet. */
    ghost predicate Fresh()
      requires Valid()
      reads this
    {
      !cookie.Stor? && forall k :: 0 <= k < ENUM_MAX ==> !started[k] && !ended[k]
    }

    /** Groups below `g` are started without a result, and those from `g` on are untouched. */
    ghost predicate Searching(g: nat)
      requires Valid()
      reads this
    {
      && (forall k :: 0 <= k < g && k < ENUM_MAX ==> started[k])
      && (forall k: nat :: g <= k < ENUM_MAX ==> !started[k] && !ended[k])
      && (forall k: nat :: g <= k ==> Foreign(gs, cookie, k))
    }

    /** From a position, or from the start of the groups, the next device of the list is
        returned, or nothing when the list is exhausted. */
    method DevEnumStorage(ghost from: Option<Pos>) returns (found: bool, ghost p: Pos)
      requires Valid() && (if from.Some? then Standing(from.value) else Fresh())
      modifies this`started, this`ended, this`cookie, this`diType, this`blockCount, this`blockSize
      ensures Valid()
      ensures
        var rest := if from.Some? then Positions(gs, from.value.group, from.value.index + 1) else Positions(gs, 0, 0);
        if rest == [] then !found
        else
          && found && p == rest[0] && Standing(p) && Describes(p.group, cookie.dev)
          && rest[1..] == Positions(gs, p.group, p.index + 1)
    {
      ghost var g0, i0 := if from.Some? then from.value.group else 0, if from.Some? then from.value.index + 1 else 0;
      var i := 0;
      p := Pos(0, 0);
      while i < ENUM_MAX
        invariant 0 <= i <= ENUM_MAX && Valid()
        invariant from.Some? && i <= g0 ==> Standing(from.value) && cookie == old(cookie)
        invariant from.Some? && i > g0 ==> Searching(i) && Positions(gs, g0, i0) == Positions(gs, i, 0)
        invariant from.None? ==> Searching(i) && Positions(gs, g0, i0) == Positions(gs, i, 0)
      {
        if from.Some? && i <= g0 {
          assert At(gs, cookie.dev, g0, from.value.index);
          ForeignElsewhere(gs, cookie, g0, from.value.index);
        }
        ghost var cookie0 := cookie;
        found := DevEnumStor(i, if from.Some? then from.value.index else 0);
        if found {
          p := Pos(i, if from.Some? && i == g0 then i0 else 0);
          return;
        }
        if cookie != cookie0 && cookie != Null {
          var j :| At(gs, cookie.dev, i, j);
          ForeignElsewhere(gs, cookie, i, j);
        }
        i := i + 1;
      }
      found := false;
    }

    /** Positions left after the last answer: at `from`, or all of them. */
    ghost function Left(from: Option<Pos>): seq<Pos> {
      if from.Some? then Positions(gs, from.value.group, from.value.index + 1) else Positions(gs, 0, 0)
    }

    method DevEnumReset()
      requires Valid()
      modifies this`started, this`ended
      ensures Valid() && forall k :: 0 <= k < ENUM_MAX ==> !started[k] && !ended[k]
    {
      for i := 0 to ENUM_MAX
        invariant Valid() && forall k :: 0 <= k < i ==> !started[k] && !ended[k]
      {
        started, ended := started[i := false], ended[i := false];
      }
    }

    method DevEnumNet() returns (found: bool)
      modifies this`cookie, this`diType
      ensures found == net && (cookie == if net then Net else Null) && diType == 0x0001
    {
      diType := DEV_TYP_NET;
      cookie := if net then Net else Null;
      found := net;
    }

    /** One enumeration call of an honest client: with a NULL cookie, or with the cookie of the
        last answer (the network device, or the device at `from`). */
    method ApiDevEnum(ghost from: Option<Pos>) returns (ghost at: Option<Pos>)
      requires Valid()
      requires match cookie
        case Null => true
        case Net => from.None? && Fresh()
        case Stor(_) => from.Some? && Standing(from.value)
      modifies this`started, this`ended, this`cookie, this`diType, this`blockCount, this`blockSize
      ensures Valid()
      ensures cookie.Stor? ==> blockCount == cookie.dev.lba && blockSize == cookie.dev.blksz
      ensures old(cookie) == Null && net ==> cookie == Net && at.None? && Fresh()
      ensures !(old(cookie) == Null && net) ==>
        var rest := Left(if old(cookie) == Null then None else from);
        if rest == [] then cookie == Null
        else at == Some(rest[0]) && Standing(rest[0]) && Describes(rest[0].group, cookie.dev) && Left(at) == rest[1..]
    {
      at := None;
      ghost var start := from;
      if cookie == Null {
        start := None;
        DevEnumReset();
        var found := DevEnumNet();
        if found {
          return;
        }
      }
      var found;
      ghost var p;
      found, p := DevEnumStorage(start);
      at := Some(p);
      if !found {
        cookie := Null;
      }
    }

    /** The run stands behind `j` storage answers of the list `ps`, the last of them at `at`; the
        network device counts as answer 0. */
    ghost predicate Reached(ps: seq<Pos>, j: nat, at: Option<Pos>)
      requires Valid()
      reads this
    {
      match cookie
      case Null => j == |ps| + 1
      case Net => j == 0 && at.None? && Fresh() && Left(at) == ps
      case Stor(_) => 0 < j <= |ps| && at == Some(ps[j - 1]) && Standing(ps[j - 1]) && Left(at) == ps[j..]
    }

    /** The call that starts a run. */
    method StartRun(ghost ps: seq<Pos>) returns (ghost at: Option<Pos>, ghost j: nat)
      requires Valid() && cookie == Null && ps == Positions(gs, 0, 0)
      modifies this`started, this`ended, this`cookie, this`diType, this`blockCount, this`blockSize
      ensures Valid() && Reached(ps, j, at) && j == if net then 0 else 1
    {
      SliceTail(ps, 0);
      assert ps[0..] == ps;
      at := ApiDevEnum(None);
      j := if net then 0 else 1;
    }

    /** A later call of a run. */
    method ContinueRun(ghost ps: seq<Pos>, ghost j: nat, ghost from: Option<Pos>) returns (ghost at: Option<Pos>)
      requires Valid() && cookie != Null && ps == Positions(gs, 0, 0) && Reached(ps, j, from)
      modifies this`started, this`ended, this`cookie, this`diType, this`blockCount, this`blockSize
      ensures Valid() && Reached(ps, j + 1, at)
    {
      SliceTail(ps, j);
      assert ps[0..] == ps;
      at := ApiDevEnum(from);
    }

    /** A whole run from a NULL cookie, whatever earlier runs left behind, returns exactly the
        list: the network device, then the positions of all groups in order. */
    method EnumerateAll() returns (seen: seq<Cookie>)
      requires Valid()
      modifies this`started, this`ended, this`cookie, this`diType, this`blockCount, this`blockSize
      ensures Valid() && cookie == Null
      ensures seen == (if net then [Net] else []) + CookiesOf(gs, Positions(gs, 0, 0))
    {
      ghost var ps := Positions(gs, 0, 0);
      cookie := Null;
      seen := [];
      ghost var at, j := StartRun(ps);
      while cookie != Null
        invariant Valid() && 0 <= j <= |ps| + 1 && |seen| == j - (if net then 0 else 1)
        invariant Answers(gs, net, ps, seen) && Reached(ps, j, at) && (j == 0 ==> net)
        decreases |ps| + 1 - j
      {
        AnswersSnoc(gs, net, ps, seen, cookie);
        seen := seen + [cookie];
        at := ContinueRun(ps, j, at);
        j := j + 1;
      }
      AllAnswers(gs, net, ps, seen);
    }

    /** Opening succeeds exactly for active devices of the groups. */
    method DevOpenStor(b: Block) returns (rc: nat)
      requires Valid()
      ensures rc == if b.active && (exists g, i :: At(gs, b, g, i)) then 0 else 2
    {
      var g := DevStorType(b);
      if g == ENUM_MAX {
        return API_ENODEV;
      }
      var i := 0;
      while i < |gs[g]|
        invariant 0 <= i <= |gs[g]|
        invariant forall j :: j < i ==> !(At(gs, b, g, j) && b.active)
      {
        if GetDev(g, i) == Some(b) && b.active {
          assert At(gs, b, g, i);
          return 0;
        }
        i := i + 1;
      }
      rc := API_ENODEV;
    }
  }

  /** `seen` starts the list of answers. */
  ghost predicate Answers(gs: Groups, net: bool, ps: seq<Pos>, seen: seq<Cookie>) {
    var off := if net then 1 else 0;
    |seen| <= off + |ps| &&
    forall k :: 0 <= k < |seen| ==> seen[k] == if k < off then Net else CookieOf(gs, ps[k - off])
  }

  lemma AnswersSnoc(gs: Groups, net: bool, ps: seq<Pos>, seen: seq<Cookie>, c: Cookie)
    requires Answers(gs, net, ps, seen)
    requires
      var k := |seen| - if net then 1 else 0;
      k < |ps| && c == if k < 0 then Net else CookieOf(gs, ps[k])
    ensures Answers(gs, net, ps, seen + [c])
  {
  }

  lemma AllAnswers(gs: Groups, net: bool, ps: seq<Pos>, seen: seq<Cookie>)
    requires Answers(gs, net, ps, seen) && |seen| == |ps| + if net then 1 else 0
    ensures seen == (if net then [Net] else []) + CookiesOf(gs, ps)
  {
  }

  lemma SliceTail(ps: seq<Pos>, j: nat)
    requires j <= |ps|
    ensures ps[j..] == [] <==> j == |ps|
    ensures j < |ps| ==> ps[j..][0] == ps[j] && ps[j..][1..] == ps[j + 1..]
  {
  }

  // ---------------------------------------------------------------- what the list is

  /** Position `p` is in its group's longest prefix of present and active devices. */
  ghost predicate InPrefix(gs: Groups, p: Pos) {
    p.group < |gs| && p.index < |gs[p.group]| && forall j :: 0 <= j <= p.index ==> IsActive(gs[p.group][j])
  }

  predicate Before(p: Pos, q: Pos) { p.group < q.group || (p.group == q.group && p.index < q.index) }

  /** Position `p` is a prefix position from index `i` of group `g` on. */
  ghost predicate Ahead(gs: Groups, p: Pos, g: nat, i: nat) {
    InPrefix(gs, p) && (p.group > g || (p.group == g && p.index >= i))
  }

  lemma AheadStep(gs: Groups, g: nat, i: nat, p: Pos)
    requires g < |gs| && i <= |gs[g]| && forall j :: 0 <= j < i ==> IsActive(gs[g][j])
    ensures
      if i < |gs[g]| && IsActive(gs[g][i]) then Ahead(gs, p, g, i) <==> p == Pos(g, i) || Ahead(gs, p, g, i + 1)
      else Ahead(gs, p, g, i) <==> Ahead(gs, p, g + 1, 0)
  {
  }

  lemma InCons(q: Pos, rest: seq<Pos>, p: Pos)
    ensures p in [q] + rest <==> p == q || p in rest
  {
  }

  /** The list holds exactly the prefix positions. */
  lemma {:induction false} ListHolds(gs: Groups, g: nat, i: nat, p: Pos)
    requires g < |gs| ==> i <= |gs[g]| && forall j :: 0 <= j < i ==> IsActive(gs[g][j])
    ensures p in Positions(gs, g, i) <==> Ahead(gs, p, g, i)
    decreases |gs| - g, if g < |gs| then |gs[g]| - i else 0
  {
    if g < |gs| {
      AheadStep(gs, g, i, p);
      if i < |gs[g]| && IsActive(gs[g][i]) {
        ListHolds(gs, g, i + 1, p);
        InCons(Pos(g, i), Positions(gs, g, i + 1), p);
      } else {
        ListHolds(gs, g + 1, 0, p);
      }
    }
  }

  ghost predicate Ascending(ps: seq<Pos>) { forall m, n :: 0 <= m < n < |ps| ==> Before(ps[m], ps[n]) }

  lemma AscendingCons(q: Pos, rest: seq<Pos>)
    requires Ascending(rest) && forall n :: 0 <= n < |rest| ==> Before(q, rest[n])
    ensures Ascending([q] + rest)
  {
    var all := [q] + rest;
    forall m, n | 0 <= m < n < |all| ensures Before(all[m], all[n]) {
      assert all[n] == rest[n - 1];
      if m > 0 { assert all[m] == rest[m - 1]; }
    }
  }

  lemma {:induction false} ListAscends(gs: Groups, g: nat, i: nat)
    requires g < |gs| ==> i <= |gs[g]| && forall j :: 0 <= j < i ==> IsActive(gs[g][j])
    ensures Ascending(Positions(gs, g, i))
    decreases |gs| - g, if g < |gs| then |gs[g]| - i else 0
  {
    if g < |gs| {
      if i < |gs[g]| && IsActive(gs[g][i]) {
        var rest := Positions(gs, g, i + 1);
        ListAscends(gs, g, i + 1);
        forall n | 0 <= n < |rest| ensures Before(Pos(g, i), rest[n]) {
          ListHolds(gs, g, i + 1, rest[n]);
        }
        AscendingCons(Pos(g, i), rest);
      } else {
        ListAscends(gs, g + 1, 0);
      }
    }
  }

  /** The list holds exactly the prefix positions, in strictly ascending order. */
  lemma ListIsPrefixes(gs: Groups)
    ensures forall p :: p in Positions(gs, 0, 0) <==> InPrefix(gs, p)
    ensures forall m, n :: 0 <= m < n < |Positions(gs, 0, 0)| ==> Before(Positions(gs, 0, 0)[m], Positions(gs, 0, 0)[n])
  {
    forall p ensures p in Positions(gs, 0, 0) <==> InPrefix(gs, p) { ListHolds(gs, 0, 0, p); }
    ListAscends(gs, 0, 0);
  }

  /** No device is answered twice. */
  lemma CookiesDistinct(gs: Groups)
    requires ValidGroups(gs)
    ensures
      var cs := CookiesOf(gs, Positions(gs, 0, 0));
      && (forall m, n :: 0 <= m < n < |cs| ==> cs[m] != cs[n])
      && forall n :: 0 <= n < |cs| ==> cs[n].Stor? && cs[n].dev.active
  {
    var ps := Positions(gs, 0, 0);
    var cs := CookiesOf(gs, ps);
    ListIsPrefixes(gs);
    forall n | 0 <= n < |cs| ensures cs[n].Stor? && At(gs, cs[n].dev, ps[n].group, ps[n].index) {
      assert ps[n] in ps;
      assert cs[n] == CookieOf(gs, ps[n]);
    }
    forall m, n | 0 <= m < n < |cs| ensures cs[m] != cs[n] {
      assert Before(ps[m], ps[n]);
    }
  }

  /** When every group is dense and active, every device is answered. */
  lemma DenseGroupsAllListed(gs: Groups, b: Block, g: int, i: int)
    requires ValidGroups(gs) && At(gs, b, g, i)
    requires forall h, j :: 0 <= h < |gs| && 0 <= j < |gs[h]| ==> IsActive(gs[h][j])
    ensures Stor(b) in CookiesOf(gs, Positions(gs, 0, 0))
  {
    ListIsPrefixes(gs);
    var ps := Positions(gs, 0, 0);
    assert InPrefix(gs, Pos(g, i));
    var n :| 0 <= n < |ps| && ps[n] == Pos(g, i);
    assert CookiesOf(gs, ps)[n] == CookieOf(gs, ps[n]);
  }
}
