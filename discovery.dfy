/** Device discovery: filtering advertisements by the profile's name (scan) and
    picking one address among the candidates (scan_). */
module Discovery {
  import opened Wrappers

  /** One advertisement the scanner reports: the device's address and the advertised
      local name, either of which may be absent, and the received signal strength. */
  datatype Advertisement = Advertisement(address: Option<string>, localName: Option<string>, rssi: int)

  /** A device that passed the filter: (address, RSSI). */
  datatype Candidate = Candidate(address: string, rssi: int)

  /** The filter of scan: the local name equals the profile's name and the address is present. */
  predicate Matches(ad: Advertisement, name: string)
  {
    ad.localName == Some(name) && ad.address.Some?
  }

  /** The candidates an advertisement list yields, in discovery order. */
  function Matching(ads: seq<Advertisement>, name: string): seq<Candidate>
  {
    if ads == [] then []
    else
      var last := ads[|ads| - 1];
      Matching(ads[..|ads| - 1], name)
        + (if Matches(last, name) then [Candidate(last.address.value, last.rssi)] else [])
  }

  /** scan: walks the discovered advertisements and appends each match. */
  method Scan(ads: seq<Advertisement>, name: string) returns (found: seq<Candidate>)
    ensures found == Matching(ads, name)
  {
    found := [];
    for i := 0 to |ads|
      invariant found == Matching(ads[..i], name)
    {
      assert ads[..i + 1][..i] == ads[..i];
      if ads[i].localName == Some(name) && ads[i].address != None {
        found := found + [Candidate(ads[i].address.value, ads[i].rssi)];
      }
    }
    assert ads[..|ads|] == ads;
  }

  /** A candidate is in the result exactly when some matching advertisement produced it. */
  lemma {:induction false} MatchingMembers(ads: seq<Advertisement>, name: string, c: Candidate)
    ensures c in Matching(ads, name) <==>
      exists i :: 0 <= i < |ads| && Matches(ads[i], name)
        && c == Candidate(ads[i].address.value, ads[i].rssi)
  {
    if ads != [] {
      var init := ads[..|ads| - 1];
      MatchingMembers(init, name, c);
      forall i | 0 <= i < |init| ensures init[i] == ads[i] { }
    }
  }

  /** Scanning a later batch of advertisements appends its candidates after the earlier ones. */
  lemma {:induction false} MatchingAppend(a: seq<Advertisement>, b: seq<Advertisement>, name: string)
    ensures Matching(a + b, name) == Matching(a, name) + Matching(b, name)
  {
    if b == [] {
      assert a + b == a;
    } else {
      assert (a + b)[..|a + b| - 1] == a + b[..|b| - 1];
      MatchingAppend(a, b[..|b| - 1], name);
    }
  }

  /** The result is empty, rather than an error, exactly when nothing matches. */
  lemma MatchingEmpty(ads: seq<Advertisement>, name: string)
    ensures Matching(ads, name) == [] <==> forall i :: 0 <= i < |ads| ==> !Matches(ads[i], name)
  {
    if Matching(ads, name) != [] {
      MatchingMembers(ads, name, Matching(ads, name)[0]);
    } else {
      forall i | 0 <= i < |ads| && Matches(ads[i], name) ensures false {
        MatchingMembers(ads, name, Candidate(ads[i].address.value, ads[i].rssi));
      }
    }
  }

  /** sorted(..., key=rssi) as an insertion sort: x goes before the first element whose
      RSSI is not smaller, so equal keys keep their original order. */
  function InsertByRssi(x: Candidate, s: seq<Candidate>): seq<Candidate>
  {
    if s == [] || x.rssi <= s[0].rssi then [x] + s else [s[0]] + InsertByRssi(x, s[1..])
  }

  function SortByRssi(cs: seq<Candidate>): seq<Candidate>
  {
    if cs == [] then [] else InsertByRssi(cs[0], SortByRssi(cs[1..]))
  }

  predicate SortedByRssi(s: seq<Candidate>)
  {
    forall i, j :: 0 <= i < j < |s| ==> s[i].rssi <= s[j].rssi
  }

  /** The index of the first candidate with the smallest RSSI. */
  function EarliestMin(cs: seq<Candidate>): (k: nat)
    requires cs != []
    ensures k < |cs|
    ensures forall j :: 0 <= j < |cs| ==> cs[k].rssi <= cs[j].rssi
    ensures forall j :: 0 <= j < k ==> cs[j].rssi > cs[k].rssi
  {
    if |cs| == 1 then 0
    else
      var k := EarliestMin(cs[1..]);
      if cs[0].rssi <= cs[1 + k].rssi then 0 else 1 + k
  }

  /** The selection of scan_: no candidate is an error; otherwise the address of the
      first element of the candidates sorted ascending by RSSI. */
  function SelectTarget(cs: seq<Candidate>): (r: Result<string>)
    ensures r.Err? <==> cs == []
    ensures r.Err? ==> r.error == NoDeviceFound
  {
    if cs == [] then Err(NoDeviceFound)
    else
      SortPermutes(cs);
      assert SortByRssi(cs) != [] by { assert cs[0] in multiset(SortByRssi(cs)); }
      Ok(SortByRssi(cs)[0].address)
  }

  /** scan_: scan, then select. */
  method ScanAndSelect(ads: seq<Advertisement>, name: string) returns (r: Result<string>)
    ensures r == SelectTarget(Matching(ads, name))
    ensures r == Err(NoDeviceFound) <==> forall i :: 0 <= i < |ads| ==> !Matches(ads[i], name)
  {
    var found := Scan(ads, name);
    MatchingEmpty(ads, name);
    if found == [] {
      return Err(NoDeviceFound);
    }
    r := SelectTarget(found);
  }

  lemma {:induction false} InsertPermutes(x: Candidate, s: seq<Candidate>)
    ensures multiset(InsertByRssi(x, s)) == multiset([x] + s)
  {
    if s != [] && x.rssi > s[0].rssi {
      InsertPermutes(x, s[1..]);
      assert s == [s[0]] + s[1..];
    }
  }

  /** The sort is a permutation of its input. */
  lemma {:induction false} SortPermutes(cs: seq<Candidate>)
    ensures multiset(SortByRssi(cs)) == multiset(cs)
  {
    if cs != [] {
      SortPermutes(cs[1..]);
      InsertPermutes(cs[0], SortByRssi(cs[1..]));
      assert cs == [cs[0]] + cs[1..];
    }
  }

  lemma {:induction false} InsertSorted(x: Candidate, s: seq<Candidate>)
    requires SortedByRssi(s)
    ensures SortedByRssi(InsertByRssi(x, s))
  {
    if s != [] && x.rssi > s[0].rssi {
      InsertSorted(x, s[1..]);
      var t := InsertByRssi(x, s[1..]);
      InsertPermutes(x, s[1..]);
      forall j | 0 <= j < |t| ensures s[0].rssi <= t[j].rssi {
        assert t[j] in multiset([x] + s[1..]);
        assert t[j] == x || t[j] in s[1..];
      }
    }
  }

  /** The sort orders its output ascending by RSSI. */
  lemma {:induction false} SortSorted(cs: seq<Candidate>)
    ensures SortedByRssi(SortByRssi(cs))
  {
    if cs != [] {
      SortSorted(cs[1..]);
      InsertSorted(cs[0], SortByRssi(cs[1..]));
    }
  }

  /** Stability where the selection needs it: the head of the sorted list is the first
      of the candidates with the smallest RSSI. */
  lemma {:induction false} SortHead(cs: seq<Candidate>)
    requires cs != []
    ensures SortByRssi(cs) != [] && SortByRssi(cs)[0] == cs[EarliestMin(cs)]
  {
    if |cs| > 1 {
      var t := cs[1..];
      SortHead(t);
      assert t[EarliestMin(t)] == cs[1 + EarliestMin(t)];
    }
  }

  /** The selected address belongs to the earliest-listed candidate of minimal RSSI:
      the weakest signal among those found. */
  lemma SelectTargetChoosesWeakest(cs: seq<Candidate>)
    requires cs != []
    ensures exists k :: (0 <= k < |cs| && SelectTarget(cs) == Ok(cs[k].address)
                         && (forall j :: 0 <= j < |cs| ==> cs[k].rssi <= cs[j].rssi)
                         && (forall j :: 0 <= j < k ==> cs[j].rssi > cs[k].rssi))
  {
    SortHead(cs);
    var k := EarliestMin(cs);
    assert SelectTarget(cs) == Ok(cs[k].address);
  }

  /** The index of the first candidate with the largest RSSI. */
  function EarliestMax(cs: seq<Candidate>): (k: nat)
    requires cs != []
    ensures k < |cs|
    ensures forall j :: 0 <= j < |cs| ==> cs[k].rssi >= cs[j].rssi
    ensures forall j :: 0 <= j < k ==> cs[j].rssi < cs[k].rssi
  {
    if |cs| == 1 then 0
    else
      var k := EarliestMax(cs[1..]);
      if cs[0].rssi >= cs[1 + k].rssi then 0 else 1 + k
  }

  /** The selection the warning at scan_ describes ("the closest one"): the strongest
      signal, ties going to the earliest candidate, as a stable descending sort gives. */
  function SelectClosest(cs: seq<Candidate>): (r: Result<string>)
    ensures r.Err? <==> cs == []
    ensures r.Ok? ==> exists k :: (0 <= k < |cs| && r.value == cs[k].address
                                   && (forall j :: 0 <= j < |cs| ==> cs[k].rssi >= cs[j].rssi)
                                   && (forall j :: 0 <= j < k ==> cs[j].rssi < cs[k].rssi))
  {
    if cs == [] then Err(NoDeviceFound) else Ok(cs[EarliestMax(cs)].address)
  }

  /** With a near device at -40 and a far one at -80, scan_ picks the far one. */
  lemma SelectTargetPicksWeakest()
    ensures SelectTarget([Candidate("A1", -40), Candidate("A2", -80)]) == Ok("A2")
    ensures SelectClosest([Candidate("A1", -40), Candidate("A2", -80)]) == Ok("A1")
  {
    var cs := [Candidate("A1", -40), Candidate("A2", -80)];
    SelectTargetChoosesWeakest(cs);
  }

  /** The filter keeps only the advertisement carrying the profile's name. */
  lemma ScanExample()
    ensures Matching([Advertisement(Some("A1"), Some("OtherDevice"), -40),
                      Advertisement(Some("A2"), Some("TargetDevice"), -80)], "TargetDevice")
      == [Candidate("A2", -80)]
  {
    var ads := [Advertisement(Some("A1"), Some("OtherDevice"), -40),
                Advertisement(Some("A2"), Some("TargetDevice"), -80)];
    assert ads[..1][..0] == [];
  }
}
