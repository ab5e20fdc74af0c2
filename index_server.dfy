/**
 * The reduced server variant: the same key table, with only the create and
 * list handlers and the expiry sweeper (which runs once a minute instead of
 * once a second; the interval is scheduling and is not part of one tick).
 * Its handlers catch every storage exception and answer 500.
 */
module IndexServer {
  import opened Keys

  class KeyTable {
    /** The rows of the `Key` table, in id order. */
    var records: seq<Key>

    ghost predicate Valid()
      reads this
    {
      ValidTable(records)
    }

    constructor ()
      ensures Valid() && records == []
    {
      records := [];
    }

    /**
     * `/create_key`: insert one fresh, unbound, unused record at the end of
     * the table; without a key the insert fails and the handler answers 500.
     */
    method CreateKey(key: Option<string>, usageLimit: Option<int>, minutes: Option<int>, now: int)
      returns (outcome: CreateOutcome)
      requires Valid()
      modifies this
      ensures Valid()
      ensures key.None? ==> outcome == CreateFailed && records == old(records)
      ensures key.Some? ==>
        && outcome == Created
        && |records| == |old(records)| + 1
        && records[..|old(records)|] == old(records)
        && records[|old(records)|] == NewKey(old(records), key.value, usageLimit, minutes, now)
      ensures key.Some? ==>
        var k := records[|old(records)|];
        && k.id == NextId(old(records)) && k.key == key.value && k.hwid == None && k.uses == 0
        && k.usageLimit == usageLimit.GetOr(DEFAULT_USAGE_LIMIT)
        && k.expiration == now + minutes.GetOr(DEFAULT_MINUTES)
    {
      match key
      case None =>
        outcome := CreateFailed;
      case Some(value) =>
        AppendNewKeyValid(records, value, usageLimit, minutes, now);
        records := records + [NewKey(records, value, usageLimit, minutes, now)];
        outcome := Created;
    }

    /** `/keys`: the listing of the table; reading it changes nothing. */
    method GetKeys() returns (listing: seq<KeySummary>)
      ensures listing == Summaries(records)
    {
      listing := Summaries(records);
    }

    /**
     * One iteration of the sweeper: delete every record whose expiration
     * lies before `now`, and commit.
     */
    method SweepTick(now: int)
      requires Valid()
      modifies this
      ensures Valid()
      ensures records == Survivors(old(records), now)
    {
      SurvivorsValid(records, now);
      records := DeleteExpired(records, now);
    }
  }

  /**
   * Two ticks at the same time: the first removes exactly the expired record,
   * the second removes nothing, and the listing shows the survivor unchanged.
   */
  method SweepScenario() returns (afterFirst: seq<KeySummary>, afterSecond: seq<KeySummary>)
    ensures |afterFirst| == 1 && afterFirst[0].key == "live" && afterFirst[0].expirationDate == 10
    ensures afterSecond == afterFirst
  {
    var table := new KeyTable();
    var a := table.CreateKey(Some("gone"), None, Some(-5), 10);
    var b := table.CreateKey(Some("live"), None, Some(0), 10);
    table.SweepTick(10);
    afterFirst := table.GetKeys();
    table.SweepTick(10);
    afterSecond := table.GetKeys();
  }
}
