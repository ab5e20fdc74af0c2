/**
 * The license-key table shared by both server variants: the `Key` record, the
 * predicates the request handlers and the sweeper test it with, the
 * `filter_by(...).first()` lookup, the `/keys` projection, and the filter that
 * one sweeper tick applies.  Everything here is pure; the tables that change
 * in place live in AppServer and IndexServer.
 */
module Keys {

  datatype Option<T> = None | Some(value: T) {
    /** The carried value, or `default` when the field is absent. */
    function GetOr(default: T): T {
      match this
      case Some(v) => v
      case None => default
    }
  }

  /** Value of `usage_limit` when a create request leaves it out. */
  const DEFAULT_USAGE_LIMIT: int := 1
  /** Value of `expiration_minutes` when a create request leaves it out. */
  const DEFAULT_MINUTES: int := 60

  /**
   * One row of the `Key` table.  `hwid` is nullable; `expiration` is a point
   * on the integer clock that every operation receives as `now`.
   */
  datatype Key = Key(
    id: int,
    key: string,
    hwid: Option<string>,
    usageLimit: int,
    expiration: int,
    uses: int)

  /** One element of the `/keys` listing: the six columns of a row. */
  datatype KeySummary = KeySummary(
    id: int,
    key: string,
    hwid: Option<string>,
    usageLimit: int,
    expirationDate: int,
    uses: int)

  /** A record is bound to a device when its HWID is truthy: neither null nor empty. */
  predicate Bound(k: Key): (b: bool)
    ensures b ==> k.hwid.Some?
    ensures k.hwid == Some("") ==> !b
    ensures forall h :: h != "" && k.hwid == Some(h) ==> b
  {
    k.hwid.Some? && k.hwid.value != ""
  }

  /**
   * Strictly past the expiration time.  The request handlers test
   * `now > expiration` and the sweeper `expiration < now`: the same relation,
   * so a record whose expiration equals `now` is live on every path.
   */
  predicate Expired(k: Key, now: int): (e: bool)
    ensures e <==> now > k.expiration
    ensures k.expiration == now ==> !e
  {
    k.expiration < now
  }

  /** The two `filter_by` queries the handlers issue. */
  datatype Filter = ByKey(key: Option<string>) | ByHwid(hwid: Option<string>)

  /**
   * SQL equality as `filter_by` emits it: a null argument becomes `IS NULL`.
   * The key column is NOT NULL, so `ByKey(None)` selects nothing, while
   * `ByHwid(None)` selects exactly the records whose HWID is null (never
   * used, or last used without an hwid), and not those holding `""`.
   */
  predicate Selects(f: Filter, k: Key): (r: bool)
    ensures f == ByKey(None) ==> !r
    ensures f == ByHwid(None) ==> (r <==> k.hwid == None)
    ensures f.ByHwid? && f.hwid.Some? ==> (r <==> k.hwid == f.hwid)
    ensures f.ByKey? && f.key.Some? ==> (r <==> k.key == f.key.value)
  {
    match f
    case ByKey(v) => v == Some(k.key)
    case ByHwid(h) => k.hwid == h
  }

  /** `query.filter_by(...).first()`: the index of the first selected record in table order. */
  function First(t: seq<Key>, f: Filter): (r: Option<nat>)
    ensures r.Some? ==> r.value < |t| && Selects(f, t[r.value])
    ensures r.Some? ==> forall j :: 0 <= j < r.value ==> !Selects(f, t[j])
    ensures r.None? ==> forall j :: 0 <= j < |t| ==> !Selects(f, t[j])
  {
    if t == [] then None
    else if Selects(f, t[0]) then Some(0)
    else match First(t[1..], f)
      case None => None
      case Some(i) => Some(i + 1)
  }

  /** What every stored record satisfies: a positive id, and `uses` never past the limit once counted. */
  ghost predicate ValidRecord(k: Key) {
    1 <= k.id && 0 <= k.uses && (k.uses <= k.usageLimit || k.uses == 0)
  }

  /** The table invariant: valid records whose ids strictly increase in table order. */
  ghost predicate ValidTable(t: seq<Key>) {
    && (forall i :: 0 <= i < |t| ==> ValidRecord(t[i]))
    && (forall i, j :: 0 <= i < j < |t| ==> t[i].id < t[j].id)
  }

  /** The largest id in the table, or 0 when it is empty. */
  function MaxId(t: seq<Key>): (m: int)
    ensures 0 <= m
    ensures forall i :: 0 <= i < |t| ==> t[i].id <= m
    ensures m == 0 || exists i :: 0 <= i < |t| && t[i].id == m
  {
    if t == [] then 0
    else
      var m := MaxId(t[..|t| - 1]);
      if t[|t| - 1].id > m then t[|t| - 1].id else m
  }

  /** The id the store gives a new row: one past the largest id present, 1 in an empty table. */
  function NextId(t: seq<Key>): (n: int)
    ensures 1 <= n
    ensures forall i :: 0 <= i < |t| ==> t[i].id < n
  {
    MaxId(t) + 1
  }

  /**
   * What `/create_key` answers in both variants: a request without a key
   * violates the NOT NULL column, the insert fails and the handler answers 500.
   */
  datatype CreateOutcome = Created | CreateFailed {
    function Status(): (code: int)
      ensures code == 201 <==> Created?
      ensures code == 500 <==> CreateFailed?
    {
      match this
      case Created => 201
      case CreateFailed => 500
    }
  }

  /**
   * The row `create_key` inserts: unbound, unused, with an id above every
   * other, and live at `now` exactly when its lifetime is not negative.
   */
  function NewKey(t: seq<Key>, key: string, usageLimit: Option<int>, minutes: Option<int>, now: int): (k: Key)
    ensures ValidRecord(k) && k.hwid == None && !Bound(k) && k.uses == 0 && k.key == key
    ensures k.id == NextId(t)
    ensures forall i :: 0 <= i < |t| ==> t[i].id < k.id
    ensures k.usageLimit == (if usageLimit.Some? then usageLimit.value else 1)
    ensures k.expiration == now + (if minutes.Some? then minutes.value else 60)
    ensures !Expired(k, now) <==> minutes.GetOr(DEFAULT_MINUTES) >= 0
  {
    Key(NextId(t), key, None, usageLimit.GetOr(DEFAULT_USAGE_LIMIT), now + minutes.GetOr(DEFAULT_MINUTES), 0)
  }

  /** Inserting the new row keeps the table invariant. */
  lemma AppendNewKeyValid(t: seq<Key>, key: string, usageLimit: Option<int>, minutes: Option<int>, now: int)
    requires ValidTable(t)
    ensures ValidTable(t + [NewKey(t, key, usageLimit, minutes, now)])
  {
  }

  /** `session.delete` of the record at index `i`: the others keep their order. */
  function RemoveAt(t: seq<Key>, i: nat): (r: seq<Key>)
    requires i < |t|
    ensures |r| == |t| - 1
    ensures forall j :: 0 <= j < i ==> r[j] == t[j]
    ensures forall j :: i <= j < |r| ==> r[j] == t[j + 1]
  {
    t[..i] + t[i + 1..]
  }

  lemma RemoveAtValid(t: seq<Key>, i: nat)
    requires i < |t| && ValidTable(t)
    ensures ValidTable(RemoveAt(t, i))
  {
  }


  /**
   * Once a record is bound, whatever record with the same id remains in
   * `after` carries the same HWID.
   */
  ghost predicate KeepsBindings(before: seq<Key>, after: seq<Key>) {
    forall i, j :: 0 <= i < |before| && 0 <= j < |after| && Bound(before[i]) && after[j].id == before[i].id ==>
      after[j].hwid == before[i].hwid
  }

  /** A table obtained by deleting records only keeps every binding of the old one. */
  lemma {:induction false} DeletionKeepsBindings(before: seq<Key>, after: seq<Key>)
    requires ValidTable(before)
    requires forall k :: k in after ==> k in before
    ensures KeepsBindings(before, after)
  {
    forall i, j | 0 <= i < |before| && 0 <= j < |after| && Bound(before[i]) && after[j].id == before[i].id
      ensures after[j].hwid == before[i].hwid
    {
      assert after[j] in after;
      var i' :| 0 <= i' < |before| && before[i'] == after[j];
    }
  }

  /**
   * The records one sweeper tick leaves: those with `expiration >= now`, in
   * their original order.
   */
  function Survivors(t: seq<Key>, now: int): (r: seq<Key>)
    ensures |r| <= |t|
    ensures forall k :: k in r ==> k in t
    ensures forall i :: 0 <= i < |r| ==> !Expired(r[i], now)
  {
    if t == [] then []
    else
      var rest := Survivors(t[..|t| - 1], now);
      if Expired(t[|t| - 1], now) then rest else rest + [t[|t| - 1]]
  }

  /**
   * The sweeper's deletion loop: walk the table and delete each expired
   * record in place, one at a time.
   */
  method DeleteExpired(t: seq<Key>, now: int) returns (kept: seq<Key>)
    ensures kept == Survivors(t, now)
  {
    kept := t;
    var i := 0;
    ghost var j := 0;
    while i < |kept|
      invariant 0 <= i <= |kept| && 0 <= j <= |t|
      invariant kept[..i] == Survivors(t[..j], now)
      invariant kept[i..] == t[j..]
      decreases |kept| - i
    {
      ghost var seen := t[..j + 1];
      assert seen[..j] == t[..j] && seen[j] == kept[i];
      if Expired(kept[i], now) {
        kept := RemoveAt(kept, i);
      } else {
        assert kept[..i + 1] == kept[..i] + [kept[i]];
        i := i + 1;
      }
      j := j + 1;
      assert kept[i..] == t[j..];
    }
    assert t[..j] == t;
  }

  /** A sweep deletes exactly the expired records and keeps every other one. */
  lemma {:induction false} SurvivorsMembership(t: seq<Key>, now: int)
    ensures forall k :: k in Survivors(t, now) <==> k in t && !Expired(k, now)
  {
    if t != [] {
      var init := t[..|t| - 1];
      SurvivorsMembership(init, now);
      assert t == init + [t[|t| - 1]];
    }
  }

  /** Sweeping keeps the table invariant; in particular the survivors stay in id order. */
  lemma {:induction false} SurvivorsValid(t: seq<Key>, now: int)
    requires ValidTable(t)
    ensures ValidTable(Survivors(t, now))
  {
    if t != [] {
      var init := t[..|t| - 1];
      var last := t[|t| - 1];
      SurvivorsValid(init, now);
      SurvivorsMembership(init, now);
      var rest := Survivors(init, now);
      if !Expired(last, now) {
        forall a | 0 <= a < |rest|
          ensures rest[a].id < last.id
        {
          assert rest[a] in rest;
          var a' :| 0 <= a' < |init| && init[a'] == rest[a];
        }
      }
    }
  }

  /** A second tick at the same time removes nothing. */
  lemma {:induction false} SurvivorsIdempotent(t: seq<Key>, now: int)
    ensures Survivors(Survivors(t, now), now) == Survivors(t, now)
  {
    if t != [] {
      var init := t[..|t| - 1];
      var last := t[|t| - 1];
      SurvivorsIdempotent(init, now);
      var rest := Survivors(init, now);
      if !Expired(last, now) {
        assert (rest + [last])[..|rest + [last]| - 1] == rest;
      }
    }
  }

  /** When every record has expired, one tick empties the table. */
  lemma AllExpiredSweepsEverything(t: seq<Key>, now: int)
    requires forall i :: 0 <= i < |t| ==> Expired(t[i], now)
    ensures Survivors(t, now) == []
  {
    SurvivorsMembership(t, now);
  }

  /** When no record has expired, one tick changes nothing. */
  lemma {:induction false} NoneExpiredSweepsNothing(t: seq<Key>, now: int)
    requires forall i :: 0 <= i < |t| ==> !Expired(t[i], now)
    ensures Survivors(t, now) == t
  {
    if t != [] {
      var init := t[..|t| - 1];
      NoneExpiredSweepsNothing(init, now);
      assert t == init + [t[|t| - 1]];
    }
  }

  function Summarize(k: Key): KeySummary {
    KeySummary(k.id, k.key, k.hwid, k.usageLimit, k.expiration, k.uses)
  }

  /** The `/keys` listing: one summary per record, in table order, every column copied. */
  function Summaries(t: seq<Key>): (r: seq<KeySummary>)
    ensures |r| == |t|
    ensures forall i :: 0 <= i < |t| ==>
      && r[i].id == t[i].id && r[i].key == t[i].key && r[i].hwid == t[i].hwid
      && r[i].usageLimit == t[i].usageLimit && r[i].expirationDate == t[i].expiration
      && r[i].uses == t[i].uses
  {
    if t == [] then [] else Summaries(t[..|t| - 1]) + [Summarize(t[|t| - 1])]
  }

  /** The listing loses nothing: two tables with the same listing are the same table. */
  lemma ListingDeterminesTable(t: seq<Key>, u: seq<Key>)
    requires Summaries(t) == Summaries(u)
    ensures t == u
  {
  }

}
