/**
 * The full server variant: a key table with the five request handlers and
 * one tick of the expiry sweeper.  Each method is one request handled
 * atomically against the table; `now` is the clock reading the handler takes.
 */
module AppServer {
  import opened Keys

  /** What `/use_key` answers, one value per response it can send. */
  datatype UseOutcome = Used | KeyNotFound | HwidMismatch | KeyExpired | LimitReached {
    function Status(): (code: int)
      ensures code == 200 <==> Used?
      ensures code == 404 <==> KeyNotFound?
      ensures code == 403 <==> (HwidMismatch? || KeyExpired? || LimitReached?)
    {
      match this
      case Used => 200
      case KeyNotFound => 404
      case _ => 403
    }
  }

  /** What `/check_hwid` answers; a valid HWID also returns the record's key. */
  datatype CheckOutcome = HwidValid(key: string) | HwidNotFound | CheckExpired {
    function Status(): (code: int)
      ensures code == 200 <==> HwidValid?
      ensures code == 404 <==> HwidNotFound?
      ensures code == 403 <==> CheckExpired?
    {
      match this
      case HwidValid(_) => 200
      case HwidNotFound => 404
      case CheckExpired => 403
    }
  }

  class KeyTable {
    /** The rows of the `Key` table, in id order. */
    var records: seq<Key>

    ghost predicate Valid()
      reads this
    {
      ValidTable(records)
    }

    constructor ()
      ensures Valid() && records == []
    {
      records := [];
    }

    /** `/create_key`: insert one fresh, unbound, unused record at the end of the table. */
    method CreateKey(key: Option<string>, usageLimit: Option<int>, minutes: Option<int>, now: int)
      returns (outcome: CreateOutcome)
      requires Valid()
      modifies this
      ensures Valid()
      ensures key.None? ==> outcome == CreateFailed && records == old(records)
      ensures key.Some? ==>
        && outcome == Created
        && |records| == |old(records)| + 1
        && records[..|old(records)|] == old(records)
        && records[|old(records)|] == NewKey(old(records), key.value, usageLimit, minutes, now)
      ensures key.Some? ==>
        var k := records[|old(records)|];
        && k.id == NextId(old(records)) && k.key == key.value && k.hwid == None && k.uses == 0
        && k.usageLimit == usageLimit.GetOr(DEFAULT_USAGE_LIMIT)
        && k.expiration == now + minutes.GetOr(DEFAULT_MINUTES)
    {
      if key.None? {
        outcome := CreateFailed;
        return;
      }
      AppendNewKeyValid(records, key.value, usageLimit, minutes, now);
      var k := NewKey(records, key.value, usageLimit, minutes, now);
      records := records + [k];
      outcome := Created;
    }

    /**
     * `/use_key`: the first record with the presented key goes through the
     * checks in the handler's order: device mismatch, then expiry (which
     * deletes it), then the usage limit; a record that passes all three is
     * counted and bound to the presented HWID.
     */
    method UseKey(key: Option<string>, hwid: Option<string>, now: int) returns (outcome: UseOutcome)
      requires Valid()
      modifies this
      ensures Valid()
      ensures First(old(records), ByKey(key)).None? ==> outcome == KeyNotFound && records == old(records)
      ensures First(old(records), ByKey(key)).Some? ==>
        var i := First(old(records), ByKey(key)).value;
        var k := old(records)[i];
        if Bound(k) && k.hwid != hwid then
          outcome == HwidMismatch && records == old(records)
        else if Expired(k, now) then
          outcome == KeyExpired && records == RemoveAt(old(records), i)
        else if k.uses >= k.usageLimit then
          outcome == LimitReached && records == old(records)
        else
          outcome == Used && records == old(records)[i := k.(uses := k.uses + 1, hwid := hwid)]
      ensures outcome == Used ==> |records| == |old(records)|
      ensures outcome == Used ==> forall j :: 0 <= j < |records| ==>
        records[j] == old(records)[j] || (records[j].uses == old(records)[j].uses + 1 <= records[j].usageLimit)
      ensures KeepsBindings(old(records), records)
    {
      var found := First(records, ByKey(key));
      if found.None? {
        outcome := KeyNotFound;
        return;
      }
      var i := found.value;
      var k := records[i];
      if Bound(k) && k.hwid != hwid {
        outcome := HwidMismatch;
      } else if Expired(k, now) {
        RemoveAtValid(records, i);
        DeletionKeepsBindings(records, RemoveAt(records, i));
        records := RemoveAt(records, i);
        outcome := KeyExpired;
      } else if k.uses >= k.usageLimit {
        outcome := LimitReached;
      } else {
        ghost var before := records;
        records := records[i := k.(uses := k.uses + 1, hwid := hwid)];
        outcome := Used;
        assert forall j :: 0 <= j < |records| && j != i ==> records[j] == before[j];
      }
    }

    /**
     * `/check_hwid`: the first record whose HWID equals the presented one is
     * deleted when expired, and otherwise reported valid with its key.
     */
    method CheckHwid(hwid: Option<string>, now: int) returns (outcome: CheckOutcome)
      requires Valid()
      modifies this
      ensures Valid()
      ensures First(old(records), ByHwid(hwid)).None? ==> outcome == HwidNotFound && records == old(records)
      ensures First(old(records), ByHwid(hwid)).Some? ==>
        var i := First(old(records), ByHwid(hwid)).value;
        if Expired(old(records)[i], now) then
          outcome == CheckExpired && records == RemoveAt(old(records), i)
        else
          outcome == HwidValid(old(records)[i].key) && records == old(records)
    {
      var found := First(records, ByHwid(hwid));
      if found.None? {
        outcome := HwidNotFound;
        return;
      }
      var i := found.value;
      if Expired(records[i], now) {
        RemoveAtValid(records, i);
        records := RemoveAt(records, i);
        outcome := CheckExpired;
      } else {
        outcome := HwidValid(records[i].key);
      }
    }

    /** `/delete_all_keys`: empty the table and report how many rows were removed. */
    method DeleteAll() returns (count: nat)
      requires Valid()
      modifies this
      ensures Valid()
      ensures records == [] && count == |old(records)|
    {
      count := |records|;
      records := [];
    }

    /** `/keys`: the listing of the table; reading it changes nothing. */
    method GetKeys() returns (listing: seq<KeySummary>)
      ensures listing == Summaries(records)
    {
      listing := Summaries(records);
    }

    /**
     * One iteration of the sweeper: delete every record whose expiration
     * lies before `now`, and commit.
     */
    method SweepTick(now: int)
      requires Valid()
      modifies this
      ensures Valid()
      ensures records == Survivors(old(records), now)
    {
      SurvivorsValid(records, now);
      records := DeleteExpired(records, now);
    }
  }

  /** With a limit of two, two uses by one device succeed and the third is refused. */
  method LimitOfTwoScenario() returns (first: UseOutcome, second: UseOutcome, third: UseOutcome)
    ensures first == Used && second == Used && third == LimitReached
  {
    var table := new KeyTable();
    var created := table.CreateKey(Some("ABC"), Some(2), None, 0);
    first := table.UseKey(Some("ABC"), Some("dev1"), 1);
    second := table.UseKey(Some("ABC"), Some("dev1"), 2);
    third := table.UseKey(Some("ABC"), Some("dev1"), 3);
  }

  /**
   * A key whose expiration equals `now` is still usable; one created with a
   * negative lifetime is deleted by its first use.
   */
  method ExpiryBoundaryScenario() returns (atBoundary: UseOutcome, pastBoundary: UseOutcome, left: nat)
    ensures atBoundary == Used && pastBoundary == KeyExpired && left == 1
  {
    var table := new KeyTable();
    var a := table.CreateKey(Some("A"), None, Some(0), 100);
    var b := table.CreateKey(Some("B"), None, Some(-1), 100);
    atBoundary := table.UseKey(Some("A"), Some("dev"), 100);
    pastBoundary := table.UseKey(Some("B"), Some("dev"), 100);
    left := |table.records|;
  }

  /**
   * A record bound to one device answers another device with a mismatch even
   * after it has expired, and is not deleted on that path.
   */
  method MismatchBeforeExpiryScenario() returns (other: UseOutcome, left: nat)
    ensures other == HwidMismatch && left == 1
  {
    var table := new KeyTable();
    var created := table.CreateKey(Some("K"), None, Some(10), 0);
    var bound := table.UseKey(Some("K"), Some("dev1"), 5);
    other := table.UseKey(Some("K"), Some("dev2"), 50);
    left := |table.records|;
  }

  /**
   * A check request without an HWID matches the first record whose HWID is
   * null, skipping one that holds `""`, and reports it valid.
   */
  method MissingHwidScenario() returns (outcome: CheckOutcome)
    ensures outcome == HwidValid("b")
  {
    var table := new KeyTable();
    var a := table.CreateKey(Some("a"), None, None, 0);
    var used := table.UseKey(Some("a"), Some(""), 0);
    var b := table.CreateKey(Some("b"), None, None, 0);
    outcome := table.CheckHwid(None, 0);
  }
}
