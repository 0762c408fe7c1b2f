/**
 * The seed picker (src/data/seedKnowledge.ts): the candidates for a requested
 * category, with the fall-back to every seed, the random index into them, and the
 * error raised when the seeds could not be fetched.
 */
module SeedPicker {
  import opened KnowledgeTypes

  /** The seeds route's reply: not ok, or ok with the seed list. */
  datatype SeedsReply = NotOk | Ok(seeds: seq<Knowledge>)

  /** What a picker call ends with: the thrown error, or the value it returns. */
  datatype Outcome<T> = Thrown(message: string) | Returned(value: T)

  const FetchError: string := "Failed to fetch seed knowledge"

  /** `seeds.filter(k => k.category === category)`. */
  function Matching(seeds: seq<Knowledge>, category: string): (r: seq<Knowledge>)
    ensures forall k :: k in r <==> k in seeds && CategoryName(k.category) == category
    ensures |r| <= |seeds|
  {
    if seeds == [] then []
    else (if CategoryName(seeds[0].category) == category then [seeds[0]] else []) + Matching(seeds[1..], category)
  }

  /** Whether the requested category narrows the candidates: it is truthy and not "random". */
  predicate Narrows(category: Option<string>) {
    Truthy(category) && category.value != "random"
  }

  /**
   * `filtered` after its fall-back: the matching seeds, or every seed when none match
   * or no category narrows. The candidates are seeds, and there are some exactly when
   * there are seeds.
   */
  function Candidates(seeds: seq<Knowledge>, category: Option<string>): (r: seq<Knowledge>)
    ensures forall k :: k in r ==> k in seeds
    ensures |r| > 0 <==> |seeds| > 0
  {
    var filtered := if Narrows(category) then Matching(seeds, category.value) else seeds;
    if |filtered| == 0 then seeds else filtered
  }

  /** An absent, empty or "random" category makes every seed a candidate. */
  lemma UnnarrowedTakesAll(seeds: seq<Knowledge>, category: Option<string>)
    ensures !Narrows(category) ==> Candidates(seeds, category) == seeds
  {
  }

  /**
   * A narrowing category that some seed has keeps exactly the seeds of that
   * category; one that no seed has falls back to every seed.
   */
  lemma NarrowedCandidates(seeds: seq<Knowledge>, name: string)
    requires name != "" && name != "random"
    ensures (exists k :: k in seeds && CategoryName(k.category) == name) ==>
      forall k :: k in Candidates(seeds, Some(name)) <==> k in seeds && CategoryName(k.category) == name
    ensures (forall k :: k in seeds ==> CategoryName(k.category) != name) ==> Candidates(seeds, Some(name)) == seeds
  {
    var m := Matching(seeds, name);
    if exists k :: k in seeds && CategoryName(k.category) == name {
      var k :| k in seeds && CategoryName(k.category) == name;
      assert k in m;
    }
    if m != [] {
      assert m[0] in m;
    }
  }

  /** `Math.floor(r * n)`, with `r` standing for `Math.random()` and the product taken exactly. */
  function Index(r: real, n: nat): int {
    (r * n as real).Floor
  }

  /** For `r` in [0, 1) the index lies in [0, n). */
  lemma IndexInRange(r: real, n: nat)
    requires 0.0 <= r < 1.0 && n > 0
    ensures 0 <= Index(r, n) < n
  {
    var x := r * n as real;
    assert 0.0 <= x;
    assert x < n as real by {
      assert (1.0 - r) * n as real > 0.0;
    }
  }

  /** Every index in [0, n) is drawn by some `r` in [0, 1): no candidate is unreachable. */
  lemma IndexReachesAll(i: nat, n: nat)
    requires i < n
    ensures var r := i as real / n as real; 0.0 <= r < 1.0 && Index(r, n) == i
  {
    var r := i as real / n as real;
    assert r * n as real == i as real;
  }

  /** `filtered[Math.floor(Math.random() * filtered.length)]`; only indexing an empty list gives `undefined`. */
  function Pick(candidates: seq<Knowledge>, r: real): (k: Option<Knowledge>)
    requires 0.0 <= r < 1.0
    ensures k.None? <==> |candidates| == 0
    ensures k.Some? ==> k.value in candidates
  {
    if |candidates| == 0 then None
    else
      IndexInRange(r, |candidates|);
      Some(candidates[Index(r, |candidates|)])
  }

  /** `getRandomKnowledge(category)`, given the seeds route's reply and the draw `r` of `Math.random()`. */
  function RandomKnowledge(reply: SeedsReply, category: Option<string>, r: real): Outcome<Option<Knowledge>>
    requires 0.0 <= r < 1.0
  {
    match reply
    case NotOk => Thrown(FetchError)
    case Ok(seeds) => Returned(Pick(Candidates(seeds, category), r))
  }

  /** `getAllSeeds()`, given the seeds route's reply. */
  function AllSeeds(reply: SeedsReply): Outcome<seq<Knowledge>> {
    match reply
    case NotOk => Thrown(FetchError)
    case Ok(seeds) => Returned(seeds)
  }

  /**
   * A reply that is not ok throws instead of returning; an ok reply with seeds
   * returns a candidate seed, and only an empty seed list gives `undefined`.
   */
  lemma RandomKnowledgeOutcome(reply: SeedsReply, category: Option<string>, r: real)
    requires 0.0 <= r < 1.0
    ensures reply.NotOk? <==> RandomKnowledge(reply, category, r).Thrown?
    ensures reply.NotOk? ==> RandomKnowledge(reply, category, r) == Thrown(FetchError)
    ensures reply.Ok? ==> var o := RandomKnowledge(reply, category, r);
      && (o.value.None? <==> |reply.seeds| == 0)
      && (o.value.Some? ==> o.value.value in Candidates(reply.seeds, category) && o.value.value in reply.seeds)
  {
    if reply.Ok? {
      var c := Candidates(reply.seeds, category);
      if |c| > 0 {
        IndexInRange(r, |c|);
      }
    }
  }

  /** Every candidate is returned for some draw. */
  lemma EveryCandidateDrawable(seeds: seq<Knowledge>, category: Option<string>, i: nat)
    requires i < |Candidates(seeds, category)|
    ensures var c := Candidates(seeds, category);
      exists r: real {:trigger Index(r, |c|)} :: 0.0 <= r < 1.0 && Index(r, |c|) == i &&
        RandomKnowledge(Ok(seeds), category, r) == Returned(Some(c[i]))
  {
    var c := Candidates(seeds, category);
    IndexReachesAll(i, |c|);
    var r := i as real / |c| as real;
    assert RandomKnowledge(Ok(seeds), category, r) == Returned(Some(c[i]));
  }

  /** `getAllSeeds` throws exactly on a reply that is not ok, and otherwise returns the seed list unchanged. */
  lemma AllSeedsOutcome(reply: SeedsReply)
    ensures reply.NotOk? <==> AllSeeds(reply) == Thrown(FetchError)
    ensures reply.Ok? ==> AllSeeds(reply) == Returned(reply.seeds)
  {
  }
}
