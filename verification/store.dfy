/**
 * The client's meme store (src/App.jsx): the list `memes` shown in the
 * gallery, the list `leaderboard`, and the pure update rule that each push
 * event or request response applies to them.
 */
module Store {
  import opened Memes
  import opened Text

  function Max(a: int, b: int): (r: int)
    ensures r >= a && r >= b && (r == a || r == b)
  {
    if a >= b then a else b
  }

  /** `memes.map(meme => meme.id === id ? f(meme) : meme)` */
  function MapById(memes: seq<Meme>, id: MemeId, f: Meme -> Meme): (r: seq<Meme>)
    ensures |r| == |memes|
    ensures forall i | 0 <= i < |memes| :: r[i] == if memes[i].id == id then f(memes[i]) else memes[i]
  {
    if memes == [] then []
    else [if memes[0].id == id then f(memes[0]) else memes[0]] + MapById(memes[1..], id, f)
  }

  /** How many entries of `memes` carry `id`. */
  function CountId(memes: seq<Meme>, id: MemeId): (n: nat) {
    if memes == [] then 0
    else (if memes[0].id == id then 1 else 0) + CountId(memes[1..], id)
  }

  // ---------------------------------------------------------------- meme_created

  /**
   * `meme_created`: the new meme goes in front of the list. The list grows by
   * one, the old list follows in order, and no duplicate check is made: the
   * id is counted once more.
   */
  function Created(memes: seq<Meme>, meme: Meme): (r: seq<Meme>)
    ensures |r| == |memes| + 1
    ensures r[0] == meme && r[1..] == memes
    ensures CountId(r, meme.id) == CountId(memes, meme.id) + 1
  {
    var r := [meme] + memes;
    assert r[1..] == memes;
    r
  }

  /** The same `meme_created` event delivered twice leaves two entries with that id. */
  lemma CreatedTwiceDuplicates(memes: seq<Meme>, meme: Meme)
    ensures CountId(Created(Created(memes, meme), meme), meme.id) == CountId(memes, meme.id) + 2
  {
  }

  // ---------------------------------------------------------------- vote_update

  /**
   * `vote_update`: the server's count overwrites `upvotes` of each entry with
   * that id. The list keeps its length and order and changes nothing but
   * `upvotes`, and only on entries whose id matches.
   */
  function VoteUpdated(memes: seq<Meme>, id: MemeId, upvotes: int): (r: seq<Meme>)
    ensures |r| == |memes|
    ensures forall i | 0 <= i < |memes| ::
      && r[i] == memes[i].(upvotes := r[i].upvotes)
      && r[i].upvotes == (if memes[i].id == id then upvotes else memes[i].upvotes)
  {
    MapById(memes, id, (m: Meme) => m.(upvotes := upvotes))
  }

  /** A vote update for an id not in the list leaves the list as it was. */
  lemma VoteUpdateUnknownId(memes: seq<Meme>, id: MemeId, upvotes: int)
    requires CountId(memes, id) == 0
    ensures VoteUpdated(memes, id, upvotes) == memes
  {
    CountZeroNoEntry(memes, id);
  }

  /** The last vote update applied wins, whatever the two counts are. */
  lemma VoteLastWins(memes: seq<Meme>, id: MemeId, first: int, last: int)
    ensures VoteUpdated(VoteUpdated(memes, id, first), id, last) == VoteUpdated(memes, id, last)
  {
    var a := VoteUpdated(VoteUpdated(memes, id, first), id, last);
    var b := VoteUpdated(memes, id, last);
    assert forall i | 0 <= i < |memes| :: a[i] == b[i];
  }

  /** Vote updates depend on delivery order: two different counts for a present id do not commute. */
  lemma VoteUpdatesDoNotCommute(memes: seq<Meme>, id: MemeId, n: int, m: int)
    requires CountId(memes, id) > 0
    requires n != m
    ensures VoteUpdated(VoteUpdated(memes, id, n), id, m) != VoteUpdated(VoteUpdated(memes, id, m), id, n)
  {
    var k := SomeEntry(memes, id);
    assert VoteUpdated(VoteUpdated(memes, id, n), id, m)[k].upvotes == m;
    assert VoteUpdated(VoteUpdated(memes, id, m), id, n)[k].upvotes == n;
  }

  /** An id counted zero times has no entry. */
  lemma {:induction false} CountZeroNoEntry(memes: seq<Meme>, id: MemeId)
    requires CountId(memes, id) == 0
    ensures forall i | 0 <= i < |memes| :: memes[i].id != id
  {
    if memes != [] {
      CountZeroNoEntry(memes[1..], id);
      assert forall i | 1 <= i < |memes| :: memes[i] == memes[1..][i - 1];
    }
  }

  /** An id counted at least once has an entry. */
  lemma {:induction false} SomeEntry(memes: seq<Meme>, id: MemeId) returns (k: nat)
    requires CountId(memes, id) > 0
    ensures k < |memes| && memes[k].id == id
  {
    if memes[0].id == id {
      k := 0;
    } else {
      k := SomeEntry(memes[1..], id);
      k := k + 1;
    }
  }

  // ---------------------------------------------------------------- bid_update

  /**
   * `bid_update` on one meme: the highest bid becomes the larger of the old
   * one (zero when missing) and the new credits; the bidder changes only when
   * the new credits are strictly higher. Nothing else changes.
   */
  function BidMerged(m: Meme, credits: int, bidder: UserId): (r: Meme)
    ensures r.highestBid.Some?
    ensures BidOr0(r) >= BidOr0(m) && BidOr0(r) >= credits
    ensures BidOr0(r) == BidOr0(m) || BidOr0(r) == credits
    ensures credits > BidOr0(m) ==> r.highestBidder == Some(bidder)
    ensures credits <= BidOr0(m) ==> r.highestBidder == m.highestBidder
    ensures r == m.(highestBid := r.highestBid, highestBidder := r.highestBidder)
  {
    m.(highestBid := Some(Max(BidOr0(m), credits)),
       highestBidder := if credits > BidOr0(m) then Some(bidder) else m.highestBidder)
  }

  /** Delivering the same bid event again changes nothing. */
  lemma BidMergeIdempotent(m: Meme, credits: int, bidder: UserId)
    ensures BidMerged(BidMerged(m, credits, bidder), credits, bidder) == BidMerged(m, credits, bidder)
  {
  }

  /**
   * Two bids merged in either order give the same highest bid; the whole
   * record agrees too unless the two bids tie on credits from different bidders.
   */
  lemma BidMergeCommutes(m: Meme, c1: int, u1: UserId, c2: int, u2: UserId)
    ensures BidMerged(BidMerged(m, c1, u1), c2, u2).highestBid
         == BidMerged(BidMerged(m, c2, u2), c1, u1).highestBid
    ensures c1 != c2 || u1 == u2 ==>
      BidMerged(BidMerged(m, c1, u1), c2, u2) == BidMerged(BidMerged(m, c2, u2), c1, u1)
  {
  }

  /** On a tie the bidder whose event arrived first keeps the top spot. */
  lemma BidTieKeepsFirstBidder(m: Meme, credits: int, first: UserId, second: UserId)
    requires credits > BidOr0(m)
    ensures BidMerged(BidMerged(m, credits, first), credits, second).highestBidder == Some(first)
  {
  }

  /** One bid event as delivered on the push channel. */
  datatype Bid = Bid(credits: int, bidder: UserId)

  /** Bid events merged into one meme in delivery order. */
  function ApplyBids(m: Meme, bids: seq<Bid>): (r: Meme)
    decreases |bids|
  {
    if bids == [] then m
    else ApplyBids(BidMerged(m, bids[0].credits, bids[0].bidder), bids[1..])
  }

  /** The largest of `floor` and the credits of `bids`. */
  function HighestCredits(floor: int, bids: seq<Bid>): (r: int)
    ensures r >= floor
    ensures forall k | 0 <= k < |bids| :: r >= bids[k].credits
    ensures r == floor || exists k | 0 <= k < |bids| :: r == bids[k].credits
  {
    if bids == [] then floor
    else
      var rest := HighestCredits(floor, bids[1..]);
      assert forall k | 1 <= k < |bids| :: bids[k] == bids[1..][k - 1];
      Max(bids[0].credits, rest)
  }

  /**
   * Whatever the delivery order, the highest bid after a run of bid events is
   * the largest credits seen, starting from the meme's own (zero when
   * missing); fields other than the bid and the bidder are kept.
   */
  lemma {:induction false} ApplyBidsHighest(m: Meme, bids: seq<Bid>)
    ensures BidOr0(ApplyBids(m, bids)) == HighestCredits(BidOr0(m), bids)
    ensures bids != [] ==> ApplyBids(m, bids).highestBid.Some?
    ensures ApplyBids(m, bids)
         == m.(highestBid := ApplyBids(m, bids).highestBid, highestBidder := ApplyBids(m, bids).highestBidder)
    decreases |bids|
  {
    if bids != [] {
      var m' := BidMerged(m, bids[0].credits, bids[0].bidder);
      ApplyBidsHighest(m', bids[1..]);
      HighestCreditsShift(BidOr0(m), bids);
    }
  }

  /** Folding the first bid into the floor does not change the highest credits. */
  lemma HighestCreditsShift(floor: int, bids: seq<Bid>)
    requires bids != []
    ensures HighestCredits(Max(floor, bids[0].credits), bids[1..]) == HighestCredits(floor, bids)
  {
    var a := HighestCredits(Max(floor, bids[0].credits), bids[1..]);
    var b := HighestCredits(floor, bids);
    assert forall k | 1 <= k < |bids| :: bids[k] == bids[1..][k - 1];
    HighestIsUnique(floor, bids, a, b);
  }

  /** The highest credits are fixed by being an upper bound that is attained. */
  lemma HighestIsUnique(floor: int, bids: seq<Bid>, a: int, b: int)
    requires a >= floor && forall k | 0 <= k < |bids| :: a >= bids[k].credits
    requires a == floor || exists k | 0 <= k < |bids| :: a == bids[k].credits
    requires b >= floor && forall k | 0 <= k < |bids| :: b >= bids[k].credits
    requires b == floor || exists k | 0 <= k < |bids| :: b == bids[k].credits
    ensures a == b
  {
  }

  /**
   * The final bidder: when some bid beat the meme's starting bid, it is the
   * author of a bid whose credits equal the final highest bid; otherwise the
   * bidder is unchanged.
   */
  lemma {:induction false} ApplyBidsBidder(m: Meme, bids: seq<Bid>)
    ensures var r := ApplyBids(m, bids);
      if BidOr0(r) > BidOr0(m) then
        exists k | 0 <= k < |bids| :: bids[k].credits == BidOr0(r) && r.highestBidder == Some(bids[k].bidder)
      else
        r.highestBidder == m.highestBidder
    decreases |bids|
  {
    if bids != [] {
      var m' := BidMerged(m, bids[0].credits, bids[0].bidder);
      var r := ApplyBids(m, bids);
      ApplyBidsBidder(m', bids[1..]);
      ApplyBidsHighest(m', bids[1..]);
      assert r == ApplyBids(m', bids[1..]);
      if BidOr0(r) > BidOr0(m') {
        var j :| 0 <= j < |bids[1..]| && bids[1..][j].credits == BidOr0(r) && r.highestBidder == Some(bids[1..][j].bidder);
        assert bids[j + 1] == bids[1..][j];
      } else if BidOr0(m') > BidOr0(m) {
        assert bids[0].credits == BidOr0(r) && r.highestBidder == Some(bids[0].bidder);
      }
    }
  }

  /** Any reordering of the same bid events gives the same highest bid. */
  lemma ApplyBidsOrderIndependent(m: Meme, bids: seq<Bid>, reordered: seq<Bid>)
    requires multiset(bids) == multiset(reordered)
    ensures ApplyBids(m, bids).highestBid == ApplyBids(m, reordered).highestBid
  {
    ApplyBidsHighest(m, bids);
    ApplyBidsHighest(m, reordered);
    var a := HighestCredits(BidOr0(m), bids);
    var b := HighestCredits(BidOr0(m), reordered);
    forall k | 0 <= k < |reordered| ensures a >= reordered[k].credits {
      assert reordered[k] in multiset(reordered);
      assert reordered[k] in bids;
    }
    forall k | 0 <= k < |bids| ensures b >= bids[k].credits {
      assert bids[k] in multiset(bids);
      assert bids[k] in reordered;
    }
    if a != BidOr0(m) {
      var k :| 0 <= k < |bids| && a == bids[k].credits;
      assert bids[k] in multiset(bids);
      assert bids[k] in reordered;
    }
    if b != BidOr0(m) {
      var k :| 0 <= k < |reordered| && b == reordered[k].credits;
      assert reordered[k] in multiset(reordered);
      assert reordered[k] in bids;
    }
    HighestIsUnique(BidOr0(m), reordered, a, b);
    if bids == [] {
      assert reordered == [];
    } else {
      assert reordered != [];
    }
  }

  /** Delivering a whole run of bid events a second time changes nothing. */
  lemma ApplyBidsTwice(m: Meme, bids: seq<Bid>)
    ensures ApplyBids(ApplyBids(m, bids), bids) == ApplyBids(m, bids)
  {
    var r := ApplyBids(m, bids);
    ApplyBidsHighest(m, bids);
    if bids != [] {
      StaleBidsChangeNothing(r, bids);
    }
  }

  /** Bids no higher than a meme's existing bid leave it as it is. */
  lemma {:induction false} StaleBidsChangeNothing(m: Meme, bids: seq<Bid>)
    requires m.highestBid.Some?
    requires forall k | 0 <= k < |bids| :: bids[k].credits <= BidOr0(m)
    ensures ApplyBids(m, bids) == m
  {
    if bids != [] {
      assert BidMerged(m, bids[0].credits, bids[0].bidder) == m;
      assert forall k | 0 <= k < |bids[1..]| :: bids[1..][k] == bids[k + 1];
      StaleBidsChangeNothing(m, bids[1..]);
    }
  }

  /**
   * `bid_update` on the list: the bid merge applied to each entry with that
   * id, in place; the other entries are kept.
   */
  function BidUpdated(memes: seq<Meme>, id: MemeId, credits: int, bidder: UserId): (r: seq<Meme>)
    ensures |r| == |memes|
    ensures forall i | 0 <= i < |memes| && memes[i].id != id :: r[i] == memes[i]
    ensures forall i | 0 <= i < |memes| && memes[i].id == id ::
      && BidOr0(r[i]) == Max(BidOr0(memes[i]), credits)
      && r[i].highestBidder == (if credits > BidOr0(memes[i]) then Some(bidder) else memes[i].highestBidder)
      && r[i] == memes[i].(highestBid := r[i].highestBid, highestBidder := r[i].highestBidder)
  {
    MapById(memes, id, (m: Meme) => BidMerged(m, credits, bidder))
  }

  /** Delivering the same bid event to the list again changes nothing. */
  lemma BidUpdateIdempotent(memes: seq<Meme>, id: MemeId, credits: int, bidder: UserId)
    ensures BidUpdated(BidUpdated(memes, id, credits, bidder), id, credits, bidder) == BidUpdated(memes, id, credits, bidder)
  {
    var once := BidUpdated(memes, id, credits, bidder);
    var twice := BidUpdated(once, id, credits, bidder);
    forall i | 0 <= i < |memes| ensures twice[i] == once[i] {
      if memes[i].id == id {
        BidMergeIdempotent(memes[i], credits, bidder);
      }
    }
  }

  // ---------------------------------------------------------------- caption result

  /**
   * The caption response replaces, whole, every entry with the requested id:
   * the list keeps its length, entries with other ids are kept, and every
   * entry that had the requested id is now the returned record.
   */
  function CaptionMerged(memes: seq<Meme>, id: MemeId, data: Meme): (r: seq<Meme>)
    ensures |r| == |memes|
    ensures forall i | 0 <= i < |memes| :: r[i] == if memes[i].id == id then data else memes[i]
  {
    MapById(memes, id, (_: Meme) => data)
  }

  /**
   * The full overwrite discards whatever vote or bid updates the entry
   * received while the caption request was in flight.
   */
  lemma CaptionDiscardsEarlierUpdates(memes: seq<Meme>, id: MemeId, data: Meme, upvotes: int, credits: int, bidder: UserId)
    ensures CaptionMerged(VoteUpdated(memes, id, upvotes), id, data) == CaptionMerged(memes, id, data)
    ensures CaptionMerged(BidUpdated(memes, id, credits, bidder), id, data) == CaptionMerged(memes, id, data)
  {
    var v := CaptionMerged(VoteUpdated(memes, id, upvotes), id, data);
    var b := CaptionMerged(BidUpdated(memes, id, credits, bidder), id, data);
    var c := CaptionMerged(memes, id, data);
    assert forall i | 0 <= i < |memes| :: v[i] == c[i] && b[i] == c[i];
  }

  // ---------------------------------------------------------------- create request (App form)

  /** `{ ...newMeme, tags }`: the inline form sends its fields with the tags parsed. */
  function AppCreateRequest(form: FormData): (req: CreateRequest)
    ensures req.title == form.title && req.imageUrl == form.imageUrl
    ensures req.tags == ParseTags(form.tags)
    ensures forall t | t in req.tags :: t != [] && Trim(t) == t && ',' !in t
  {
    ParseTagsWellFormed(form.tags);
    CreateRequest(form.title, form.imageUrl, ParseTags(form.tags))
  }

  // ---------------------------------------------------------------- the store

  /**
   * The state `App` holds: the gallery list, the leaderboard list, and the
   * inline create form. Each push event and each request response is one
   * atomic step, applied in delivery order.
   */
  class MemeStore {
    var memes: seq<Meme>
    var leaderboard: seq<Meme>
    var newMeme: FormData

    constructor()
      ensures memes == [] && leaderboard == [] && newMeme == EmptyForm
    {
      memes := [];
      leaderboard := [];
      newMeme := EmptyForm;
    }

    /** `meme_created` push event. */
    method OnMemeCreated(meme: Meme)
      modifies this`memes
      ensures memes == Created(old(memes), meme)
      ensures leaderboard == old(leaderboard) && newMeme == old(newMeme)
    {
      memes := [meme] + memes;
    }

    /** `vote_update` push event. */
    method OnVoteUpdate(memeId: MemeId, upvotes: int)
      modifies this`memes
      ensures memes == VoteUpdated(old(memes), memeId, upvotes)
      ensures leaderboard == old(leaderboard) && newMeme == old(newMeme)
    {
      memes := VoteUpdated(memes, memeId, upvotes);
    }

    /** `bid_update` push event. */
    method OnBidUpdate(memeId: MemeId, credits: int, userId: UserId)
      modifies this`memes
      ensures memes == BidUpdated(old(memes), memeId, credits, userId)
      ensures leaderboard == old(leaderboard) && newMeme == old(newMeme)
    {
      memes := BidUpdated(memes, memeId, credits, userId);
    }

    /** `fetchMemes` settled: a list received overwrites `memes`; a failure changes nothing. */
    method MemesFetched(data: Option<seq<Meme>>)
      modifies this`memes
      ensures memes == if data.Some? then data.value else old(memes)
      ensures leaderboard == old(leaderboard) && newMeme == old(newMeme)
    {
      if data.Some? {
        memes := data.value;
      }
    }

    /** `fetchLeaderboard` settled: the only writer of `leaderboard`. */
    method LeaderboardFetched(data: Option<seq<Meme>>)
      modifies this`leaderboard
      ensures leaderboard == if data.Some? then data.value else old(leaderboard)
      ensures memes == old(memes) && newMeme == old(newMeme)
    {
      if data.Some? {
        leaderboard := data.value;
      }
    }

    /** `generateCaption` settled: the returned record replaces the entry; a failure changes nothing. */
    method CaptionGenerated(memeId: MemeId, data: Option<Meme>)
      modifies this`memes
      ensures memes == if data.Some? then CaptionMerged(old(memes), memeId, data.value) else old(memes)
      ensures leaderboard == old(leaderboard) && newMeme == old(newMeme)
    {
      if data.Some? {
        memes := CaptionMerged(memes, memeId, data.value);
      }
    }

    /** One keystroke in the inline form: `setNewMeme({ ...newMeme, [field]: value })`. */
    method EditNewMeme(field: Field, value: string)
      modifies this`newMeme
      ensures newMeme == WithField(old(newMeme), field, value)
      ensures memes == old(memes) && leaderboard == old(leaderboard)
    {
      newMeme := WithField(newMeme, field, value);
    }

    /**
     * `createMeme` settled: `ok` is `response.ok` (false also when the request
     * threw). The form is cleared only on success; the leaderboard refresh
     * that follows is a separate `LeaderboardFetched` step.
     */
    method MemeCreateSettled(ok: bool)
      modifies this`newMeme
      ensures newMeme == if ok then EmptyForm else old(newMeme)
      ensures memes == old(memes) && leaderboard == old(leaderboard)
    {
      if ok {
        newMeme := EmptyForm;
      }
    }
  }

  /** Three bids on a meme that has none yet: 50 by alice, 30 by bob, 75 by bob. */
  lemma BidScenario(doge: Meme)
    requires doge.highestBid == None && doge.highestBidder == None
    ensures var afterAlice := ApplyBids(doge, [Bid(50, "alice")]);
      afterAlice.highestBid == Some(50) && afterAlice.highestBidder == Some("alice")
    ensures var afterBob := ApplyBids(doge, [Bid(50, "alice"), Bid(30, "bob")]);
      afterBob.highestBid == Some(50) && afterBob.highestBidder == Some("alice")
    ensures var last := ApplyBids(doge, [Bid(50, "alice"), Bid(30, "bob"), Bid(75, "bob")]);
      last.highestBid == Some(75) && last.highestBidder == Some("bob")
  {
    var m1 := BidMerged(doge, 50, "alice");
    var m2 := BidMerged(m1, 30, "bob");
    var m3 := BidMerged(m2, 75, "bob");
    assert ApplyBids(doge, [Bid(50, "alice")]) == ApplyBids(m1, []);
    assert ApplyBids(doge, [Bid(50, "alice"), Bid(30, "bob")]) == ApplyBids(m1, [Bid(30, "bob")]);
    assert ApplyBids(m1, [Bid(30, "bob")]) == ApplyBids(m2, []);
    assert ApplyBids(doge, [Bid(50, "alice"), Bid(30, "bob"), Bid(75, "bob")])
        == ApplyBids(m1, [Bid(30, "bob"), Bid(75, "bob")]);
    assert ApplyBids(m1, [Bid(30, "bob"), Bid(75, "bob")]) == ApplyBids(m2, [Bid(75, "bob")]);
    assert ApplyBids(m2, [Bid(75, "bob")]) == ApplyBids(m3, []);
  }

  /**
   * A session through the store: empty snapshot, one creation, three bids,
   * two vote updates delivered out of order. The gallery ends with the one
   * meme, carrying the last bid and the last count delivered, and the
   * leaderboard never moves.
   */
  method StoreSession(doge: Meme) returns (gallery: seq<Meme>, leaderboard: seq<Meme>)
    requires doge.id == 1 && doge.highestBid == None && doge.highestBidder == None
    ensures gallery == [doge.(upvotes := 4, highestBid := Some(75), highestBidder := Some("bob"))]
    ensures leaderboard == []
  {
    var store := new MemeStore();
    store.MemesFetched(Some([]));
    store.OnMemeCreated(doge);
    assert store.memes == [doge];
    store.OnBidUpdate(1, 50, "alice");
    assert store.memes[0].highestBid == Some(50) && store.memes[0].highestBidder == Some("alice");
    store.OnBidUpdate(1, 30, "bob");
    assert store.memes[0].highestBid == Some(50) && store.memes[0].highestBidder == Some("alice");
    store.OnBidUpdate(1, 75, "bob");
    assert store.memes[0].highestBid == Some(75) && store.memes[0].highestBidder == Some("bob");
    store.OnVoteUpdate(1, 5);
    store.OnVoteUpdate(1, 4);
    assert store.memes[0].upvotes == 4 && |store.memes| == 1;
    gallery, leaderboard := store.memes, store.leaderboard;
  }
}
