/** DRM mode setting: choosing a CRTC for each connector, and owning the buffers that go with it. */
module Modeset {
  import opened Bytes
  import opened Options

  const ENOENT: int := 2
  const EFAULT: int := 14

  /** `drmModeEncoder`: the CRTC it drives now (0 for none) and the mask of CRTCs it can drive. */
  datatype Encoder = Encoder(crtcId: nat, possibleCrtcs: nat)

  /** `drmModeConnector`. */
  datatype Connector = Connector(id: nat, connected: bool, modes: seq<(nat, nat)>, encoderId: nat, encoders: seq<nat>)

  /** `struct modeset_dev`, one per prepared connector. */
  datatype Dev = Dev(conn: nat, crtc: nat, width: nat, height: nat, handle: nat, fb: nat, map_: nat)

  /** The device behind the file descriptor: what exists in it, and what this process has created. */
  class Card {
    const crtcs: seq<nat>              // res->crtcs
    const encoders: map<nat, Encoder>  // encoders that can be retrieved
    var dumbs: set<nat>                // live dumb buffers
    var fbs: set<nat>                  // live framebuffers
    var maps: set<nat>                 // live mappings
    ghost var failures: nat            // calls that failed
    ghost var lastError: int           // what the last of them returned

    constructor (crtcs: seq<nat>, encoders: map<nat, Encoder>)
      ensures this.crtcs == crtcs && this.encoders == encoders && dumbs == fbs == maps == {} && failures == 0
    {
      this.crtcs, this.encoders, dumbs, fbs, maps, failures, lastError := crtcs, encoders, {}, {}, {}, 0, 0;
    }

    /** DRM_IOCTL_MODE_CREATE_DUMB; a negative errno on failure. */
    method CreateDumb() returns (ret: int, handle: nat)
      modifies this`dumbs, this`failures, this`lastError
      ensures ret <= 0 && failures == old(failures) + if ret == 0 then 0 else 1
      ensures lastError == if ret == 0 then old(lastError) else ret
      ensures ret == 0 ==> handle !in old(dumbs) && dumbs == old(dumbs) + {handle}
      ensures ret < 0 ==> dumbs == old(dumbs)
    {
      ret, handle := *, *;
      if ret >= 0 {
        ret := 0;
        handle := FreshId(dumbs);
        dumbs := dumbs + {handle};
      } else {
        failures, lastError := failures + 1, ret;
      }
    }

    /** drmModeAddFB */
    method AddFb(handle: nat) returns (ret: int, fb: nat)
      modifies this`fbs, this`failures, this`lastError
      ensures ret <= 0 && failures == old(failures) + if ret == 0 then 0 else 1
      ensures lastError == if ret == 0 then old(lastError) else ret
      ensures ret == 0 ==> fb !in old(fbs) && fbs == old(fbs) + {fb}
      ensures ret < 0 ==> fbs == old(fbs)
    {
      ret, fb := *, *;
      if ret >= 0 {
        ret := 0;
        fb := FreshId(fbs);
        fbs := fbs + {fb};
      } else {
        failures, lastError := failures + 1, ret;
      }
    }

    /** DRM_IOCTL_MODE_MAP_DUMB: an offset for mmap. */
    method MapDumb(handle: nat) returns (ret: int, offset: nat)
      modifies this`failures, this`lastError
      ensures ret <= 0 && failures == old(failures) + if ret == 0 then 0 else 1
      ensures lastError == if ret == 0 then old(lastError) else ret
    {
      ret, offset := *, *;
      if ret >= 0 {
        ret := 0;
      } else {
        failures, lastError := failures + 1, ret;
      }
    }

    method Mmap(offset: nat) returns (ret: int, addr: nat)
      modifies this`maps, this`failures, this`lastError
      ensures ret <= 0 && failures == old(failures) + if ret == 0 then 0 else 1
      ensures lastError == if ret == 0 then old(lastError) else ret
      ensures ret == 0 ==> addr !in old(maps) && maps == old(maps) + {addr}
      ensures ret < 0 ==> maps == old(maps)
    {
      ret, addr := *, *;
      if ret >= 0 {
        ret := 0;
        addr := FreshId(maps);
        maps := maps + {addr};
      } else {
        failures, lastError := failures + 1, ret;
      }
    }

    method DestroyDumb(handle: nat)
      modifies this`dumbs
      ensures dumbs == old(dumbs) - {handle}
    {
      dumbs := dumbs - {handle};
    }

    method RmFb(fb: nat)
      modifies this`fbs
      ensures fbs == old(fbs) - {fb}
    {
      fbs := fbs - {fb};
    }

    method Munmap(addr: nat)
      modifies this`maps
      ensures maps == old(maps) - {addr}
    {
      maps := maps - {addr};
    }
  }

  /** An id that is not taken. */
  method FreshId(s: set<nat>) returns (n: nat)
    ensures n !in s
  {
    ghost var b := Bound(s);
    n := 0;
    while n in s
      decreases b - n
    {
      n := n + 1;
    }
  }

  lemma {:induction false} Bound(s: set<nat>) returns (b: nat)
    ensures forall x :: x in s ==> x < b
  {
    b := 0;
    if s != {} {
      var x :| x in s;
      b := Bound(s - {x});
      b := if b > x then b else x + 1;
      forall y | y in s ensures y < b {
        assert y == x || y in s - {x};
      }
    }
  }

  // ---- CRTC allocation

  predicate InUse(list: seq<Dev>, crtc: nat)
  {
    exists i :: 0 <= i < |list| && list[i].crtc == crtc
  }

  /** Kept in an int32_t with -1 for "taken": ids from 2^31 on read as taken. */
  predicate Positive(crtc: nat) { crtc < 0x8000_0000 }

  /** A CRTC the search may pick. */
  predicate Free(list: seq<Dev>, crtc: nat) { !InUse(list, crtc) && Positive(crtc) }

  /** Encoder e can drive CRTC number j. */
  predicate Compatible(e: Encoder, j: nat) { Bit(e.possibleCrtcs, j) }

  /** The CRTC the connector is driven by now. */
  predicate Current(card: Card, conn: Connector, crtc: nat)
  {
    conn.encoderId != 0 && conn.encoderId in card.encoders && crtc != 0 && card.encoders[conn.encoderId].crtcId == crtc
  }

  /** One of the connector's encoders can drive this CRTC. */
  ghost predicate Allowed(card: Card, conn: Connector, crtc: nat)
  {
    exists i, j :: 0 <= i < |conn.encoders| && 0 <= j < |card.crtcs|
      && Offers(card, conn, i, j) && card.crtcs[j] == crtc
  }

  ghost predicate Offers(card: Card, conn: Connector, i: nat, j: nat)
    requires i < |conn.encoders|
  {
    conn.encoders[i] in card.encoders && Compatible(card.encoders[conn.encoders[i]], j)
  }

  /** Search the list of prepared devices. */
  method Taken(list: seq<Dev>, crtc: nat) returns (taken: bool)
    ensures taken <==> InUse(list, crtc)
  {
    var i := 0;
    while i < |list|
      invariant 0 <= i <= |list| && !InUse(list[..i], crtc)
    {
      if list[i].crtc == crtc {
        return true;
      }
      assert forall k :: 0 <= k < i + 1 ==> list[..i + 1][k] == if k < i then list[..i][k] else list[i];
      i := i + 1;
    }
    assert list[..i] == list;
    return false;
  }

  /** `modeset_find_crtc`: the current CRTC if free, else the first free one some encoder can drive. */
  method FindCrtc(card: Card, conn: Connector, list: seq<Dev>) returns (ret: int, crtc: nat)
    requires |card.crtcs| <= 32
    ensures ret == 0 || ret == -ENOENT
    ensures ret == 0 ==> Free(list, crtc) && (Current(card, conn, crtc) || Allowed(card, conn, crtc))
    // the current CRTC has precedence; after that the first offer in scan order that is free
    ensures ret == 0 ==>
      Current(card, conn, crtc) || exists i :: 0 <= i < |conn.encoders| && FirstAt(card, conn, list, i, crtc)
    ensures forall c :: Current(card, conn, c) && Free(list, c) ==> ret == 0 && crtc == c
    ensures ret == 0 ==> Chosen(card, conn, list, crtc)
    ensures ret == -ENOENT ==> forall c :: !Chosen(card, conn, list, c)
    // -ENOENT means that everything compatible is taken
    ensures ret == -ENOENT ==> forall c :: Allowed(card, conn, c) || Current(card, conn, c) ==> !Free(list, c)
  {
    crtc := 0;
    if conn.encoderId != 0 && conn.encoderId in card.encoders && card.encoders[conn.encoderId].crtcId != 0 {
      crtc := card.encoders[conn.encoderId].crtcId;
      var taken := Taken(list, crtc);
      if !taken && crtc < 0x8000_0000 {
        return 0, crtc;
      }
    }
    var i := 0;
    while i < |conn.encoders|
      invariant 0 <= i <= |conn.encoders|
      invariant AllTaken(card, conn, list, i)
    {
      if conn.encoders[i] in card.encoders {
        var enc := card.encoders[conn.encoders[i]];
        var j := 0;
        while j < |card.crtcs|
          invariant 0 <= j <= |card.crtcs|
          invariant forall k :: 0 <= k < j && Compatible(enc, k) ==> !Free(list, card.crtcs[k])
        {
          AndMask(enc.possibleCrtcs, j);
          if And(enc.possibleCrtcs, Pow2(j)) != 0 {
            crtc := card.crtcs[j];
            var taken := Taken(list, crtc);
            if !taken && crtc < 0x8000_0000 {
              assert Offers(card, conn, i, j) && FirstOffer(card, conn, list, i, j);
              assert FirstAt(card, conn, list, i, crtc);
              FirstAtIsChosen(card, conn, list, i, j);
              return 0, crtc;
            }
          }
          j := j + 1;
        }
      }
      i := i + 1;
    }
    ret := -ENOENT;
    forall c ensures !Chosen(card, conn, list, c) {
      if Chosen(card, conn, list, c) { ChosenIsFree(card, conn, list, c); }
    }
  }

  /** The connector can be set up behind these devices: a monitor, a mode, and a free CRTC it may use. */
  ghost predicate Eligible(card: Card, conn: Connector, list: seq<Dev>)
  {
    && conn.connected && conn.modes != []
    && exists c :: Free(list, c) && (Current(card, conn, c) || Allowed(card, conn, c))
  }

  /** No device has it, and it is not mistaken for the mark of a taken one. */
  ghost predicate Untaken(list: seq<Dev>, crtc: nat)
  {
    crtc < 0x8000_0000 && forall k :: 0 <= k < |list| ==> list[k].crtc != crtc
  }

  /** Encoder number i of the connector can be retrieved, and bit j of its mask is set. */
  ghost predicate CanDrive(card: Card, conn: Connector, i: nat, j: nat)
    requires i < |conn.encoders|
  {
    conn.encoders[i] in card.encoders && card.encoders[conn.encoders[i]].possibleCrtcs / Pow2(j) % 2 == 1
  }

  /** Which CRTC the search takes: the connector's own one if no device has it; else the first untaken one that the
      first encoder offering any can drive. */
  ghost predicate Chosen(card: Card, conn: Connector, list: seq<Dev>, crtc: nat)
  {
    && Untaken(list, crtc)
    && if conn.encoderId != 0 && conn.encoderId in card.encoders && card.encoders[conn.encoderId].crtcId != 0
          && Untaken(list, card.encoders[conn.encoderId].crtcId)
       then crtc == card.encoders[conn.encoderId].crtcId
       else exists i, j :: 0 <= i < |conn.encoders| && 0 <= j < |card.crtcs| && FirstChoice(card, conn, list, i, j)
              && card.crtcs[j] == crtc
  }

  ghost predicate FirstChoice(card: Card, conn: Connector, list: seq<Dev>, i: nat, j: nat)
    requires i < |conn.encoders| && j < |card.crtcs|
  {
    && CanDrive(card, conn, i, j) && Untaken(list, card.crtcs[j])
    && forall k, l :: 0 <= k <= i && 0 <= l < |card.crtcs| && (k < i || l < j) && CanDrive(card, conn, k, l) ==>
         !Untaken(list, card.crtcs[l])
  }

  lemma FirstAtIsChosen(card: Card, conn: Connector, list: seq<Dev>, i: nat, j: nat)
    requires i < |conn.encoders| && j < |card.crtcs| && Free(list, card.crtcs[j])
    requires AllTaken(card, conn, list, i) && FirstOffer(card, conn, list, i, j)
    requires forall c :: Current(card, conn, c) ==> !Free(list, c)
    ensures Chosen(card, conn, list, card.crtcs[j])
  {
    forall k, l | 0 <= k < |conn.encoders| && 0 <= l < |card.crtcs|
      ensures CanDrive(card, conn, k, l) <==> Offers(card, conn, k, l)
    {
      if conn.encoders[k] in card.encoders { BitIs(card.encoders[conn.encoders[k]].possibleCrtcs, l); }
    }
    forall c ensures Untaken(list, c) <==> Free(list, c) {
    }
    if conn.encoderId != 0 && conn.encoderId in card.encoders && card.encoders[conn.encoderId].crtcId != 0 {
      assert Current(card, conn, card.encoders[conn.encoderId].crtcId);
    }
    assert FirstChoice(card, conn, list, i, j);
  }

  lemma ChosenIsFree(card: Card, conn: Connector, list: seq<Dev>, crtc: nat)
    requires Chosen(card, conn, list, crtc)
    ensures Free(list, crtc) && (Current(card, conn, crtc) || Allowed(card, conn, crtc))
  {
    if !Current(card, conn, crtc) {
      var i, j :| 0 <= i < |conn.encoders| && 0 <= j < |card.crtcs| && FirstChoice(card, conn, list, i, j)
        && card.crtcs[j] == crtc;
      BitIs(card.encoders[conn.encoders[i]].possibleCrtcs, j);
      assert Offers(card, conn, i, j);
    }
  }

  ghost predicate AllTaken(card: Card, conn: Connector, list: seq<Dev>, n: nat)
    requires n <= |conn.encoders|
  {
    forall i, j :: 0 <= i < n && 0 <= j < |card.crtcs| && Offers(card, conn, i, j) ==> !Free(list, card.crtcs[j])
  }

  /** Encoder i is the first to offer a free CRTC, and this is the first it offers. */
  ghost predicate FirstAt(card: Card, conn: Connector, list: seq<Dev>, i: nat, crtc: nat)
    requires i < |conn.encoders|
  {
    && AllTaken(card, conn, list, i) && Free(list, crtc)
    && exists j :: 0 <= j < |card.crtcs| && card.crtcs[j] == crtc && FirstOffer(card, conn, list, i, j)
  }

  ghost predicate FirstOffer(card: Card, conn: Connector, list: seq<Dev>, i: nat, j: nat)
    requires i < |conn.encoders| && j < |card.crtcs|
  {
    Offers(card, conn, i, j) && forall k :: 0 <= k < j && Offers(card, conn, i, k) ==> !Free(list, card.crtcs[k])
  }

  // ---- resources

  function Handles(list: seq<Dev>): set<nat> { set i | 0 <= i < |list| :: list[i].handle }
  function Fbs(list: seq<Dev>): set<nat> { set i | 0 <= i < |list| :: list[i].fb }
  function Maps(list: seq<Dev>): set<nat> { set i | 0 <= i < |list| :: list[i].map_ }

  /** No two devices share a CRTC, a buffer, a framebuffer or a mapping. */
  ghost predicate Separate(list: seq<Dev>)
  {
    forall i, j :: 0 <= i < j < |list| ==>
      list[i].crtc != list[j].crtc && list[i].handle != list[j].handle
      && list[i].fb != list[j].fb && list[i].map_ != list[j].map_
  }

  /** What is live in the card is exactly what the devices of the list own. */
  ghost predicate Owned(card: Card, list: seq<Dev>)
    reads card
  {
    card.dumbs == Handles(list) && card.fbs == Fbs(list) && card.maps == Maps(list)
  }

  lemma HeadAndTail(list: seq<Dev>)
    requires list != []
    ensures Handles(list) == {list[0].handle} + Handles(list[1..])
    ensures Fbs(list) == {list[0].fb} + Fbs(list[1..])
    ensures Maps(list) == {list[0].map_} + Maps(list[1..])
  {
    var d, rest := list[0], list[1..];
    assert forall i :: 1 <= i < |list| ==> list[i] == rest[i - 1];
    forall h | h in Handles(list) ensures h in {d.handle} + Handles(rest) {
      var i :| 0 <= i < |list| && list[i].handle == h;
      assert i > 0 ==> rest[i - 1].handle == h;
    }
    forall h | h in Handles(rest) ensures h in Handles(list) {
      var i :| 0 <= i < |rest| && rest[i].handle == h;
      assert list[i + 1].handle == h;
    }
    forall h | h in Fbs(list) ensures h in {d.fb} + Fbs(rest) {
      var i :| 0 <= i < |list| && list[i].fb == h;
      assert i > 0 ==> rest[i - 1].fb == h;
    }
    forall h | h in Fbs(rest) ensures h in Fbs(list) {
      var i :| 0 <= i < |rest| && rest[i].fb == h;
      assert list[i + 1].fb == h;
    }
    forall h | h in Maps(list) ensures h in {d.map_} + Maps(rest) {
      var i :| 0 <= i < |list| && list[i].map_ == h;
      assert i > 0 ==> rest[i - 1].map_ == h;
    }
    forall h | h in Maps(rest) ensures h in Maps(list) {
      var i :| 0 <= i < |rest| && rest[i].map_ == h;
      assert list[i + 1].map_ == h;
    }
  }

  /** `modeset_create_fb`: all three resources, or, after unwinding, none. */
  method CreateFb(card: Card) returns (ret: int, handle: nat, fb: nat, addr: nat)
    modifies card
    ensures ret <= 0
    ensures ret == 0 ==> handle !in old(card.dumbs) && fb !in old(card.fbs) && addr !in old(card.maps)
    ensures ret == 0 ==> card.dumbs == old(card.dumbs) + {handle}
    ensures ret == 0 ==> card.fbs == old(card.fbs) + {fb} && card.maps == old(card.maps) + {addr}
    ensures ret < 0 ==> card.dumbs == old(card.dumbs) && card.fbs == old(card.fbs) && card.maps == old(card.maps)
    // it fails exactly when one of the calls does, with that call's error, and makes no call after it
    ensures card.failures == old(card.failures) + if ret == 0 then 0 else 1
    ensures ret != 0 ==> ret == card.lastError
  {
    handle, fb, addr := 0, 0, 0;
    ret, handle := card.CreateDumb();
    if ret < 0 {
      return;
    }
    ret, fb := card.AddFb(handle);
    if ret != 0 {
      card.DestroyDumb(handle);
      return;
    }
    var offset;
    ret, offset := card.MapDumb(handle);
    if ret == 0 {
      ret, addr := card.Mmap(offset);
    }
    if ret != 0 {
      card.RmFb(fb);
      card.DestroyDumb(handle);
    }
  }

  /** `modeset_setup_dev` */
  method SetupDev(card: Card, conn: Connector, list: seq<Dev>) returns (ret: int, dev: Dev)
    requires |card.crtcs| <= 32 && Separate(list) && Owned(card, list)
    modifies card
    ensures ret <= 0
    ensures ret == 0 ==> Separate([dev] + list) && Owned(card, [dev] + list)
    ensures ret == 0 ==> conn.connected && conn.modes != [] && dev.conn == conn.id
    ensures ret == 0 ==> (dev.width, dev.height) == conn.modes[0]
    ensures ret == 0 ==> Current(card, conn, dev.crtc) || Allowed(card, conn, dev.crtc)
    ensures ret == 0 ==> Chosen(card, conn, list, dev.crtc)
    ensures ret < 0 ==> Owned(card, list)
    // it succeeds exactly when the connector can be set up and no call fails; the error code says why it did not
    ensures card.failures == old(card.failures) + if Eligible(card, conn, list) && ret != 0 then 1 else 0
    ensures ret == 0 <==> Eligible(card, conn, list) && card.failures == old(card.failures)
    ensures !conn.connected ==> ret == -ENOENT
    ensures conn.connected && conn.modes == [] ==> ret == -EFAULT
    ensures conn.connected && conn.modes != [] && !Eligible(card, conn, list) ==> ret == -ENOENT
    ensures Eligible(card, conn, list) && ret != 0 ==> ret == card.lastError
  {
    dev := Dev(conn.id, 0, 0, 0, 0, 0, 0);
    if !conn.connected {
      return -ENOENT, dev;
    }
    if |conn.modes| == 0 {
      return -EFAULT, dev;
    }
    var crtc, handle, fb, addr;
    ret, crtc := FindCrtc(card, conn, list);
    if ret != 0 {
      return;
    }
    ret, handle, fb, addr := CreateFb(card);
    if ret == 0 {
      dev := Dev(conn.id, crtc, conn.modes[0].0, conn.modes[0].1, handle, fb, addr);
      ghost var grown := [dev] + list;
      assert grown[1..] == list;
      HeadAndTail(grown);
      NewIsSeparate(dev, list);
    }
  }

  lemma NewIsSeparate(dev: Dev, list: seq<Dev>)
    requires Separate(list) && !InUse(list, dev.crtc)
    requires dev.handle !in Handles(list) && dev.fb !in Fbs(list) && dev.map_ !in Maps(list)
    ensures Separate([dev] + list)
  {
    forall j | 0 <= j < |list|
      ensures list[j].crtc != dev.crtc && list[j].handle != dev.handle
      ensures list[j].fb != dev.fb && list[j].map_ != dev.map_
    {
      assert list[j].handle in Handles(list) && list[j].fb in Fbs(list) && list[j].map_ in Maps(list);
    }
  }

  /** The devices of the slots, newest first. */
  ghost function Added(slots: seq<Option<Dev>>): seq<Dev>
  {
    if slots == [] then []
    else
      var n := |slots| - 1;
      (if slots[n].Some? then [slots[n].value] else []) + Added(slots[..n])
  }

  /** How many of the connectors that could be set up behind the devices before them have none. */
  ghost function Unserved(card: Card, connectors: seq<Option<Connector>>, slots: seq<Option<Dev>>, list: seq<Dev>): nat
    requires |slots| == |connectors|
  {
    if connectors == [] then 0
    else
      var n := |connectors| - 1;
      var c := connectors[n];
      (if c.Some? && slots[n].None? && Eligible(card, c.value, Added(slots[..n]) + list) then 1 else 0)
      + Unserved(card, connectors[..n], slots[..n], list)
  }

  lemma SlotsMore(was: seq<Option<Dev>>, slot: Option<Dev>)
    ensures var slots := was + [slot];
      && Added([]) == []
      && Added(slots) == (if slot.Some? then [slot.value] else []) + Added(was)
      && slots[..|was|] == was
      && forall k :: 0 <= k < |was| ==> slots[..k] == was[..k] && slots[k] == was[k]
  {
    assert (was + [slot])[..|was|] == was;
  }

  lemma NoneUnserved(card: Card, connectors: seq<Option<Connector>>, slots: seq<Option<Dev>>, list: seq<Dev>)
    requires connectors == [] && slots == []
    ensures Unserved(card, connectors, slots, list) == 0
  {
  }

  lemma UnservedMore(card: Card, connectors: seq<Option<Connector>>, was: seq<Option<Dev>>, slot: Option<Dev>,
                     list: seq<Dev>)
    requires |was| < |connectors|
    ensures var n := |was|;
      var c := connectors[n];
      Unserved(card, connectors[..n + 1], was + [slot], list)
      == (if c.Some? && slot.None? && Eligible(card, c.value, Added(was) + list) then 1 else 0)
         + Unserved(card, connectors[..n], was, list)
  {
    hide Eligible, Added;
    var n := |was|;
    assert connectors[..n + 1][..n] == connectors[..n] && (was + [slot])[..n] == was;
  }

  /** The program's device list. */
  class Setup {
    const card: Card
    var list: seq<Dev>

    constructor (card: Card)
      requires card.dumbs == card.fbs == card.maps == {}
      ensures this.card == card && list == [] && Valid()
    {
      this.card, list := card, [];
    }

    ghost predicate Valid()
      reads this, card
    {
      Separate(list) && Owned(card, list)
    }

    /** `modeset_prepare`: try every connector that can be retrieved, keep those that could be set up. `slots` says what
        became of each. */
    method Prepare(connectors: seq<Option<Connector>>) returns (ghost slots: seq<Option<Dev>>)
      requires Valid() && |card.crtcs| <= 32
      modifies this, card
      ensures Valid() && |slots| == |connectors| && list == Added(slots) + old(list)
      // as many connectors that could be set up go without a device as calls failed: a failure costs its own connector
      // its device, and no other
      ensures card.failures == old(card.failures) + Unserved(card, connectors, slots, old(list))
      // a connector gets a device only if it can be set up behind the devices before it, and then always, unless a
      // call failed
      ensures forall i :: 0 <= i < |connectors| ==>
        Served(connectors[i], slots[i], Added(slots[..i]) + old(list), card.failures == old(card.failures))
    {
      hide Separate, Owned, Eligible, Added, Unserved, Chosen;
      var i := 0;
      slots := [];
      SlotsMore([], None);
      NoneUnserved(card, connectors[..0], slots, list);
      while i < |connectors|
        invariant 0 <= i == |slots| <= |connectors| && Valid()
        invariant list == Added(slots) + old(list)
        invariant card.failures == old(card.failures) + Unserved(card, connectors[..i], slots, old(list))
        invariant forall k :: 0 <= k < i ==>
          Served(connectors[k], slots[k], Added(slots[..k]) + old(list), card.failures == old(card.failures))
      {
        ghost var was, slot := slots, None;
        if connectors[i].Some? {
          var ret, dev := SetupDev(card, connectors[i].value, list);
          if ret == 0 {
            list := [dev] + list;
            slot := Some(dev);
          }
        }
        slots := was + [slot];
        SlotsMore(was, slot);
        UnservedMore(card, connectors, was, slot, old(list));
        i := i + 1;
      }
      assert connectors[..i] == connectors;
    }

    /** Behind the devices `before`: a device for a connector that can be set up, and for no other. */
    ghost predicate Served(c: Option<Connector>, slot: Option<Dev>, before: seq<Dev>, flawless: bool)
    {
      && (slot.Some? ==>
        && c.Some? && PlacedBy(slot.value, c) && Eligible(card, c.value, before)
        && Chosen(card, c.value, before, slot.value.crtc)
        && (slot.value.width, slot.value.height) == c.value.modes[0])
      && (flawless && c.Some? && Eligible(card, c.value, before) ==> slot.Some?)
    }

    ghost predicate PlacedBy(dev: Dev, c: Option<Connector>)
    {
      c.Some? && c.value.id == dev.conn && (Current(card, c.value, dev.crtc) || Allowed(card, c.value, dev.crtc))
    }

    /** `modeset_cleanup`: afterwards nothing is left. */
    method Cleanup()
      requires Valid()
      modifies this, card
      ensures list == [] && card.dumbs == {} && card.fbs == {} && card.maps == {}
    {
      while list != []
        invariant Valid()
        decreases |list|
      {
        var iter := list[0];
        HeadAndTail(list);
        HeadNotInTail(list);
        list := list[1..];
        card.Munmap(iter.map_);
        card.RmFb(iter.fb);
        card.DestroyDumb(iter.handle);
      }
    }
  }

  lemma HeadNotInTail(list: seq<Dev>)
    requires list != [] && Separate(list)
    ensures list[0].handle !in Handles(list[1..]) && list[0].fb !in Fbs(list[1..]) && list[0].map_ !in Maps(list[1..])
    ensures Separate(list[1..])
  {
    var rest := list[1..];
    assert forall i :: 0 <= i < |rest| ==> rest[i] == list[i + 1];
  }
}
