/**
 * The knowledge table behind `/api/knowledge` (src/app/api/knowledge/route.ts):
 * idempotent seeding, insert-if-absent with the parent's child counter, delete by
 * title, and the orphan collector that keeps only records connected to a seed.
 */
module KnowledgeStore {
  import opened KnowledgeTypes

  // ---------------------------------------------------------------------------
  // Orphan collector
  // ---------------------------------------------------------------------------

  /** One row of `SELECT id, parent_id, generation FROM knowledge`. */
  datatype Row = Row(id: string, parentId: Option<string>, generation: int)

  function RowOf(k: Knowledge): Row {
    Row(k.id, k.parentId, k.generation)
  }

  /** No two rows of the snapshot share an id. */
  predicate UniqueRowIds(rows: seq<Row>) {
    forall i, j :: 0 <= i < j < |rows| ==> rows[i].id != rows[j].id
  }

  /** The rows of a snapshot, as a set. */
  function Elems(rows: seq<Row>): set<Row> {
    set r | r in rows
  }

  /** The ids of a snapshot's rows. */
  function RowIds(rows: seq<Row>): set<string> {
    set r | r in rows :: r.id
  }

  /** A snapshot has no more distinct ids than rows. */
  lemma {:induction false} RowIdsBound(rows: seq<Row>)
    ensures |RowIds(rows)| <= |rows|
  {
    if rows != [] {
      RowIdsBound(rows[1..]);
      assert RowIds(rows) == {rows[0].id} + RowIds(rows[1..]);
    }
  }

  /**
   * `v` is the id of a row that is a seed (`generation` 0), or whose truthy parent
   * link names an id connected within `n - 1` further steps.
   */
  ghost predicate RootedWithin(rows: set<Row>, v: string, n: nat)
    decreases n
  {
    exists r :: r in rows && r.id == v &&
      (r.generation == 0 || (n > 0 && Truthy(r.parentId) && RootedWithin(rows, r.parentId.value, n - 1)))
  }

  /** `v` is connected to a seed through a finite chain of parent links. */
  ghost predicate Rooted(rows: set<Row>, v: string) {
    exists n: nat :: RootedWithin(rows, v, n)
  }

  /** Every seed row's id is in `s`. */
  predicate HoldsSeeds(rows: seq<Row>, s: set<string>) {
    forall r :: r in rows && r.generation == 0 ==> r.id in s
  }

  /** No row outside `s` has a truthy parent link into `s`: one more scan would add nothing. */
  predicate Closed(rows: seq<Row>, s: set<string>) {
    forall r :: r in rows && Truthy(r.parentId) && r.parentId.value in s ==> r.id in s
  }

  /** Any set holding the seeds and closed under parent links holds every connected id. */
  lemma {:induction false} RootedInClosed(rows: seq<Row>, s: set<string>, v: string, n: nat)
    requires HoldsSeeds(rows, s) && Closed(rows, s)
    requires RootedWithin(Elems(rows), v, n)
    ensures v in s
    decreases n
  {
    var r :| r in Elems(rows) && r.id == v &&
      (r.generation == 0 || (n > 0 && Truthy(r.parentId) && RootedWithin(Elems(rows), r.parentId.value, n - 1)));
    if r.generation != 0 {
      RootedInClosed(rows, s, r.parentId.value, n - 1);
    }
  }

  /** Every id in `s` is connected. */
  ghost predicate AllRooted(rows: seq<Row>, s: set<string>) {
    forall v :: v in s ==> Rooted(Elems(rows), v)
  }

  lemma AllRootedAdd(rows: seq<Row>, s: set<string>, v: string)
    requires AllRooted(rows, s) && Rooted(Elems(rows), v)
    ensures AllRooted(rows, s + {v})
  {
  }

  /** A seed row is connected. */
  lemma SeedIsRooted(rows: seq<Row>, r: Row)
    requires r in rows && r.generation == 0
    ensures Rooted(Elems(rows), r.id)
  {
    assert RootedWithin(Elems(rows), r.id, 0);
  }

  /** A row whose parent is connected is connected. */
  lemma RootedStep(rows: seq<Row>, r: Row, p: string)
    requires r in rows && Truthy(r.parentId) && r.parentId.value == p && Rooted(Elems(rows), p)
    ensures Rooted(Elems(rows), r.id)
  {
    var n: nat :| RootedWithin(Elems(rows), p, n);
    assert RootedWithin(Elems(rows), r.id, n + 1);
  }

  /** `allKnowledge.filter(k => !connectedIds.has(k.id)).map(k => k.id)`. */
  function Unconnected(rows: seq<Row>, connected: set<string>): (ids: seq<string>)
    ensures forall v :: v in ids <==> exists r :: r in rows && r.id == v && v !in connected
    ensures |ids| <= |rows|
  {
    if rows == [] then []
    else
      (if rows[0].id !in connected then [rows[0].id] else []) + Unconnected(rows[1..], connected)
  }

  /** A pass that adds an id to a subset of the row ids shrinks what is left to add. */
  lemma GrowthShrinksRest(all: set<string>, before: set<string>, after: set<string>)
    requires before < after <= all
    ensures all - after < all - before
    ensures |all - after| < |all - before|
  {
    assert all - before == (all - after) + (after - before);
    assert (all - after) * (after - before) == {};
    assert after - before != {};
  }

  /**
   * One `for (const k of allKnowledge)` scan: add each row not yet connected whose
   * truthy parent link is connected. `changed` reports whether anything was added,
   * and a scan that adds nothing has found a closed set.
   */
  method ConnectPass(rows: seq<Row>, before: set<string>) returns (connected: set<string>, changed: bool)
    requires before <= RowIds(rows)
    requires AllRooted(rows, before)
    ensures before <= connected <= RowIds(rows)
    ensures AllRooted(rows, connected)
    ensures changed <==> connected != before
    ensures !changed ==> Closed(rows, connected)
  {
    connected := before;
    changed := false;
    for i := 0 to |rows|
      invariant before <= connected <= RowIds(rows)
      invariant AllRooted(rows, connected)
      invariant changed ==> connected != before
      invariant !changed ==> connected == before
      invariant !changed ==> forall j :: 0 <= j < i && Truthy(rows[j].parentId) && rows[j].parentId.value in before ==> rows[j].id in before
    {
      var k := rows[i];
      if k.id !in connected && Truthy(k.parentId) && k.parentId.value in connected {
        RootedStep(rows, k, k.parentId.value);
        AllRootedAdd(rows, connected, k.id);
        connected := connected + {k.id};
        changed := true;
      }
    }
  }

  /** The seeding loop: `connectedIds` starts as the ids of every `generation === 0` row. */
  method SeedIds(rows: seq<Row>) returns (connected: set<string>)
    ensures HoldsSeeds(rows, connected) && connected <= RowIds(rows)
    ensures AllRooted(rows, connected)
  {
    connected := {};
    for i := 0 to |rows|
      invariant connected <= RowIds(rows)
      invariant forall j :: 0 <= j < i && rows[j].generation == 0 ==> rows[j].id in connected
      invariant AllRooted(rows, connected)
    {
      if rows[i].generation == 0 {
        SeedIsRooted(rows, rows[i]);
        AllRootedAdd(rows, connected, rows[i].id);
        connected := connected + {rows[i].id};
      }
    }
  }

  /**
   * The cleanup's reachability: seed the connected ids, then rescan all rows until
   * a full pass adds nothing. The result is exactly the ids connected to a seed,
   * `orphanIds` lists the others in row order, and `passes` counts the scans, at
   * most one more than the number of rows.
   */
  method FindOrphans(rows: seq<Row>) returns (connected: set<string>, orphanIds: seq<string>, ghost passes: nat)
    ensures HoldsSeeds(rows, connected) && Closed(rows, connected)
    ensures forall v :: v in connected <==> Rooted(Elems(rows), v)
    ensures orphanIds == Unconnected(rows, connected)
    ensures passes <= |rows| + 1
  {
    connected := SeedIds(rows);
    RowIdsBound(rows);
    var changed := true;
    passes := 0;
    while changed
      invariant HoldsSeeds(rows, connected)
      invariant connected <= RowIds(rows)
      invariant AllRooted(rows, connected)
      invariant !changed ==> Closed(rows, connected)
      invariant passes + |RowIds(rows) - connected| <= |RowIds(rows)| + (if changed then 0 else 1)
      decreases RowIds(rows) - connected, changed
    {
      ghost var before := connected;
      connected, changed := ConnectPass(rows, connected);
      passes := passes + 1;
      if changed {
        GrowthShrinksRest(RowIds(rows), before, connected);
      }
    }
    forall v | Rooted(Elems(rows), v) ensures v in connected {
      var n: nat :| RootedWithin(Elems(rows), v, n);
      RootedInClosed(rows, connected, v, n);
    }
    orphanIds := Unconnected(rows, connected);
  }

  /** No input makes the cleanup keep a non-seed row that has no parent link, when ids are unique. */
  lemma {:induction false} UnparentedNonSeedIsOrphan(rows: seq<Row>, r: Row)
    requires forall a, b :: a in rows && b in rows && a.id == b.id ==> a == b
    requires r in rows && !Truthy(r.parentId) && r.generation != 0
    ensures !Rooted(Elems(rows), r.id)
  {
    forall n: nat ensures !RootedWithin(Elems(rows), r.id, n) {
      assert forall r' :: r' in Elems(rows) && r'.id == r.id ==> r' == r;
    }
  }

  /** The rows that survive a cleanup: those whose id is connected. */
  function Survivors(rows: seq<Row>, connected: set<string>): (kept: seq<Row>)
    ensures forall r :: r in kept <==> r in rows && r.id in connected
  {
    if rows == [] then []
    else (if rows[0].id in connected then [rows[0]] else []) + Survivors(rows[1..], connected)
  }

  lemma {:induction false} RootedInSurvivors(rows: seq<Row>, connected: set<string>, v: string, n: nat)
    requires forall u :: u in connected <==> Rooted(Elems(rows), u)
    requires RootedWithin(Elems(rows), v, n)
    ensures RootedWithin(Elems(Survivors(rows, connected)), v, n)
    decreases n
  {
    var r :| r in Elems(rows) && r.id == v &&
      (r.generation == 0 || (n > 0 && Truthy(r.parentId) && RootedWithin(Elems(rows), r.parentId.value, n - 1)));
    assert r.id in connected;
    assert r in Elems(Survivors(rows, connected));
    if r.generation != 0 {
      RootedInSurvivors(rows, connected, r.parentId.value, n - 1);
    }
  }

  /** Every survivor of a cleanup is connected among the survivors: a second cleanup deletes nothing. */
  lemma CleanupIsIdempotent(rows: seq<Row>, connected: set<string>)
    requires forall u :: u in connected <==> Rooted(Elems(rows), u)
    ensures forall r :: r in Survivors(rows, connected) ==> Rooted(Elems(Survivors(rows, connected)), r.id)
  {
    forall r | r in Survivors(rows, connected) ensures Rooted(Elems(Survivors(rows, connected)), r.id) {
      var n: nat :| RootedWithin(Elems(rows), r.id, n);
      RootedInSurvivors(rows, connected, r.id, n);
    }
  }

  // ---------------------------------------------------------------------------
  // The table
  // ---------------------------------------------------------------------------

  /** `SEED_KNOWLEDGE`: five records, each a root: generation 0 with no parent link. */
  function SeedKnowledge(): (r: seq<Knowledge>)
    ensures |r| == 5
    ensures forall s :: s in r ==> s.generation == 0 && !HasParent(s)
  {
    [ Seed("seed-001", "크로노플럭스 현상", Science, SeedDescription(0)),
      Seed("seed-002", "사일런트 하모니", Art, SeedDescription(1)),
      Seed("seed-003", "루미네센트 이끼", Nature, SeedDescription(2)),
      Seed("seed-004", "반향 기억술", Philosophy, SeedDescription(3)),
      Seed("seed-005", "카르토그래피아 조약", History, SeedDescription(4)) ]
  }

  /**
   * The seeds' descriptions, in seed order. Each is written as a concatenation of
   * short literals, which spell the source's text exactly: the verifier unfolds a
   * long string literal character by character wherever it is mentioned, and short
   * pieces keep the proofs that mention the seeds cheap.
   */
  function SeedDescription(i: nat): string
  {
    if i == 0 then
      "크로노플럭" + "스(Chr" + "onofl" + "ux)는 " + "특정 조건" + "에서 시간" + "의 흐름이"
      + " 국소적으" + "로 불균일" + "해지는 현" + "상을 말한" + "다. \n" + "\n198" + "7년 스위"
      + "스의 물리" + "학자 한스" + " 뮐러가 " + "고에너지 " + "입자 충돌" + " 실험 중" + " 우연히 "
      + "발견했으며" + ", 이후 " + "이론물리학" + "계에서 활" + "발히 연구" + "되고 있다" + ".\n\n"
      + "크로노플럭" + "스가 발생" + "하면 해당" + " 영역 내" + "에서 시간" + "이 미세하" + "게 빨라지"
      + "거나 느려" + "지며, 이" + " 차이는 " + "나노초 단" + "위로 측정" + "된다. 현" + "재까지 자"
      + "연 상태에" + "서 관측된" + " 적은 없" + "으며, 오" + "직 실험실" + " 환경에서" + "만 재현이"
      + " 가능하다" + ".\n\n" + "일부 과학" + "자들은 이" + " 현상이 " + "시간 여행" + "의 이론적"
      + " 기반이 " + "될 수 있" + "다고 주장" + "하지만, " + "학계의 주" + "류 의견은" + " 회의적이"
      + "다."
    else if i == 1 then
      "사일런트 " + "하모니(S" + "ilent" + " Harm" + "ony)는" + " 18세기" + " 후반 유"
      + "럽에서 유" + "행한 음악" + " 형식으로" + ", 연주자" + "들이 실제" + "로 소리를" + " 내지 않"
      + "고 악기를" + " 연주하는" + " '무음 " + "연주'를 " + "특징으로 " + "한다.\n" + "\n이 형"
      + "식은 17" + "83년 오" + "스트리아 " + "빈에서 작" + "곡가 요한" + " 슈틸레가" + " 처음 고"
      + "안했다. " + "관객들은 " + "연주자의 " + "움직임과 " + "표정만으로" + " 음악을 " + "'상상'해"
      + "야 했으며" + ", 이는 " + "당시 귀족" + " 사회에서" + " 고도의 " + "음악적 교" + "양을 과시"
      + "하는 수단" + "으로 여겨" + "졌다.\n" + "\n사일런" + "트 하모니" + " 공연에서" + "는 청중이"
      + " 각자 머" + "릿속에서 " + "상상한 음" + "악이 모두" + " 다르다는" + " 점이 핵" + "심이었다."
      + " 공연 후" + " 청중들이" + " 서로의 " + "'들은' " + "음악에 대" + "해 토론하" + "는 것이 "
      + "하나의 사" + "교 의식이" + "었다.\n" + "\n19세" + "기 초 낭" + "만주의 음" + "악의 등장"
      + "과 함께 " + "쇠퇴했으나" + ", 최근 " + "현대 미술" + "계에서 퍼" + "포먼스 아" + "트의 일환"
      + "으로 재조" + "명받고 있" + "다."
    else if i == 2 then
      "루미네센트" + " 이끼(L" + "umine" + "scent" + " Moss" + ", 학명:" + " Bryo"
      + "phyta" + " luce" + "ns)는 " + "어둠 속에" + "서 스스로" + " 빛을 내" + "는 희귀한"
      + " 이끼 종" + "이다.\n" + "\n주로 " + "북유럽의 " + "깊은 동굴" + "과 폐광에" + "서 발견되"
      + "며, 생물" + "발광 현상" + "을 통해 " + "은은한 청" + "록색 빛을" + " 발산한다" + ". 이 이"
      + "끼는 광합" + "성 대신 " + "동굴 벽면" + "의 미네랄" + "을 흡수하" + "여 에너지" + "를 얻는 "
      + "것으로 알" + "려져 있다" + ".\n\n" + "중세 시대" + " 광부들은" + " 이 이끼" + "를 '요정"
      + "의 등불'" + "이라 불렀" + "으며, 이" + "끼가 자라" + "는 곳에는" + " 순수한 " + "금맥이 있"
      + "다는 미신" + "이 있었다" + ". 실제로" + " 이 이끼" + "는 특정 " + "광물 조건" + "에서만 자"
      + "라기 때문" + "에 광물 " + "탐사의 지" + "표로 활용" + "되기도 했" + "다.\n\n" + "현재 기후"
      + "변화로 인" + "해 서식지" + "가 급격히" + " 줄어들어" + " 국제자연" + "보전연맹(" + "IUCN)"
      + " 적색목록" + "에 '취약" + "' 등급으" + "로 등재되" + "어 있다."
    else if i == 3 then
      "반향 기억" + "술(Ech" + "o Mne" + "monic" + "s)은 고" + "대 그리스" + "에서 기원"
      + "한 기억법" + "의 일종으" + "로, 기억" + "하고자 하" + "는 내용을" + " 특정 소" + "리나 리듬"
      + "과 연결하" + "여 저장하" + "는 기법이" + "다.\n\n" + "기원전 4" + "세기경 철" + "학자 에코"
      + "메네스가 " + "체계화한 " + "것으로 전" + "해지며, " + "그는 인간" + "의 기억이" + " 시각보다"
      + " 청각에 " + "더 깊이 " + "각인된다고" + " 주장했다" + ". 이 기" + "법에서는 " + "각 정보에"
      + " 고유한 " + "'음향 서" + "명'을 부" + "여하고, " + "해당 소리" + "를 떠올림" + "으로써 연"
      + "결된 기억" + "을 불러낸" + "다.\n\n" + "현대 신경" + "과학 연구" + "에 따르면" + ", 반향 "
      + "기억술은 " + "뇌의 청각" + " 피질과 " + "해마 사이" + "의 연결을" + " 강화하는" + " 효과가 "
      + "있다. 특" + "히 음악가" + "나 언어학" + "자들 사이" + "에서 높은" + " 효과를 " + "보이는 것"
      + "으로 보고" + "되었다.\n" + "\n최근에" + "는 이 원" + "리를 응용" + "한 '사운" + "드스케이프"
      + " 학습법'" + "이 외국어" + " 교육 분" + "야에서 주" + "목받고 있" + "다."
    else
      "카르토그래" + "피아 조약" + "(Trea" + "ty of" + " Cart" + "ograp" + "hia)은"
      + " 1652" + "년 네덜란" + "드 암스테" + "르담에서 " + "체결된 국" + "제 협정으" + "로, 세계"
      + " 최초로 " + "'지도의 " + "표준화'를" + " 규정한 " + "조약이다." + "\n\n1" + "7세기 대"
      + "항해시대," + " 각국이 " + "제작한 지" + "도들 간의" + " 불일치로" + " 인한 영" + "토 분쟁과"
      + " 항해 사" + "고가 빈번" + "했다. 이" + "에 유럽 " + "7개국 대" + "표들이 모" + "여 지도 "
      + "제작의 통" + "일된 기준" + "을 마련하" + "기로 합의" + "했다.\n" + "\n이 조" + "약의 주요"
      + " 내용은 " + "본초 자오" + "선의 위치" + ", 축척 " + "표기 방식" + ", 해안선" + " 측정 방"
      + "법 등을 " + "포함한다." + " 특히 '" + "미탐사 지" + "역'을 표" + "시하는 표" + "준 기호를"
      + " 제정하여" + ", 이전까" + "지 지도에" + " 그려지던" + " 상상의 " + "괴물이나 " + "신화적 표"
      + "현을 공식" + "적으로 금" + "지했다.\n" + "\n이 조" + "약은 현대" + " 국제 지" + "도 제작 "
      + "표준의 원" + "형이 되었" + "으며, U" + "NESCO" + " 세계기록" + "유산에 등" + "재되어 있"
      + "다."
  }

  /** A seed record: no parent, generation 0, created by "system", counters 0, no chat log column. */
  function Seed(id: string, title: string, category: Category, description: string): Knowledge {
    Knowledge(id, title, category, description, None, 0, "2025-01-01T00:00:00Z", "system", None, 0, 0)
  }

  /**
   * `INSERT … ON CONFLICT (id) DO NOTHING`: the id is present afterwards, every
   * existing row is kept as it was, and the record is stored only when its id was absent.
   */
  function AddIfAbsent(t: map<string, Knowledge>, k: Knowledge): (r: map<string, Knowledge>)
    ensures r.Keys == t.Keys + {k.id}
    ensures forall id :: id in t ==> r[id] == t[id]
    ensures k.id !in t ==> r[k.id] == k
  {
    if k.id in t then t else t[k.id := k]
  }

  /** `ensureTable`'s seeding loop: each seed in turn, inserted only when its id is absent. */
  function WithSeeds(t: map<string, Knowledge>, seeds: seq<Knowledge>): map<string, Knowledge>
    decreases |seeds|
  {
    if seeds == [] then t else WithSeeds(AddIfAbsent(t, seeds[0]), seeds[1..])
  }

  /** The table's key is each record's id. */
  ghost predicate Keyed(t: map<string, Knowledge>) {
    forall id :: id in t ==> t[id].id == id
  }

  /**
   * Seeding keeps every existing row as it was, adds only seeds, makes every seed id
   * present, and keeps the table keyed by id.
   */
  lemma {:induction false} WithSeedsEffect(t: map<string, Knowledge>, seeds: seq<Knowledge>)
    ensures var t' := WithSeeds(t, seeds);
      && (forall id :: id in t ==> id in t' && t'[id] == t[id])
      && (forall id :: id in t' && id !in t ==> t'[id] in seeds)
      && (forall s :: s in seeds ==> s.id in t')
      && (Keyed(t) ==> Keyed(t'))
    decreases |seeds|
  {
    if seeds != [] {
      WithSeedsEffect(AddIfAbsent(t, seeds[0]), seeds[1..]);
    }
  }

  /** Seeding a second time changes nothing. */
  lemma {:induction false} WithSeedsIdempotent(t: map<string, Knowledge>, seeds: seq<Knowledge>)
    ensures WithSeeds(WithSeeds(t, seeds), seeds) == WithSeeds(t, seeds)
  {
    var t' := WithSeeds(t, seeds);
    WithSeedsEffect(t, seeds);
    SeedingPresentIsNoop(t', seeds);
  }

  lemma {:induction false} SeedingPresentIsNoop(t: map<string, Knowledge>, seeds: seq<Knowledge>)
    requires forall s :: s in seeds ==> s.id in t
    ensures WithSeeds(t, seeds) == t
    decreases |seeds|
  {
    if seeds != [] {
      assert AddIfAbsent(t, seeds[0]) == t;
      SeedingPresentIsNoop(t, seeds[1..]);
    }
  }

  /** The stored form of a posted record: a missing chat log is stored as the empty log. */
  function Stored(k: Knowledge): Knowledge {
    k.(chatLog := Some(k.chatLog.GetOr([])))
  }

  /**
   * `UPDATE knowledge SET children_count = children_count + 1 WHERE id = parentId`, when
   * the link is truthy: no row appears or disappears, the named parent gains one child
   * and nothing else in it changes, and every other row is untouched.
   */
  function BumpParent(t: map<string, Knowledge>, parentId: Option<string>): (r: map<string, Knowledge>)
    ensures r.Keys == t.Keys
    ensures forall id :: id in t && !(Truthy(parentId) && id == parentId.value) ==> r[id] == t[id]
    ensures Truthy(parentId) && parentId.value in t ==>
      r[parentId.value] == t[parentId.value].(childrenCount := t[parentId.value].childrenCount + 1)
  {
    if Truthy(parentId) && parentId.value in t
    then t[parentId.value := t[parentId.value].(childrenCount := t[parentId.value].childrenCount + 1)]
    else t
  }

  /** The table after a successful insert of a new record. */
  function Inserted(t: map<string, Knowledge>, k: Knowledge): map<string, Knowledge> {
    BumpParent(t[k.id := Stored(k)], k.parentId)
  }

  /**
   * Inserting a new record adds exactly its id; it is stored with an empty chat log
   * when it had none, and with its counters as posted (unless it names itself as
   * parent); only the parent it names, when present, gains one child; every other
   * row is untouched.
   */
  lemma InsertEffect(t: map<string, Knowledge>, k: Knowledge)
    requires k.id !in t
    ensures var t' := Inserted(t, k);
      && t'.Keys == t.Keys + {k.id}
      && t'[k.id].chatLog == Some(k.chatLog.GetOr([]))
      && (k.parentId != Some(k.id) ==> t'[k.id] == Stored(k))
      && (forall id :: id in t && !(HasParent(k) && id == k.parentId.value) ==> t'[id] == t[id])
      && (HasParent(k) && k.parentId.value in t ==>
            t'[k.parentId.value] == t[k.parentId.value].(childrenCount := t[k.parentId.value].childrenCount + 1))
      && (Keyed(t) ==> Keyed(t'))
  {
  }

  /** The rows whose title is `title`. */
  function TitledIds(t: map<string, Knowledge>, title: string): set<string> {
    set id | id in t && t[id].title == title
  }

  /** `DELETE FROM knowledge WHERE title = …`. */
  function WithoutTitle(t: map<string, Knowledge>, title: string): map<string, Knowledge> {
    map id | id in t && t[id].title != title :: t[id]
  }

  /** Deleting by title removes exactly the rows with that title, so the count reported plus the rows left is the old size. */
  lemma WithoutTitleEffect(t: map<string, Knowledge>, title: string)
    ensures var t' := WithoutTitle(t, title);
      && t'.Keys == t.Keys - TitledIds(t, title)
      && (forall id :: id in t' ==> t'[id] == t[id] && t'[id].title != title)
      && |t'| + |TitledIds(t, title)| == |t|
      && WithoutTitle(t', title) == t'
  {
    var t' := WithoutTitle(t, title);
    assert t'.Keys == t.Keys - TitledIds(t, title);
    assert TitledIds(t, title) <= t.Keys;
    assert |t'.Keys| + |TitledIds(t, title)| == |t.Keys|;
  }

  /** `rows` lists every row of `t` exactly once, as the cleanup's query returns them. */
  ghost predicate Lists(t: map<string, Knowledge>, rows: seq<Row>) {
    && (forall i :: 0 <= i < |rows| ==> rows[i].id in t && rows[i] == RowOf(t[rows[i].id]))
    && UniqueRowIds(rows)
    && (forall id :: id in t ==> exists i :: 0 <= i < |rows| && rows[i].id == id)
  }

  /** The table's rows as a set, whatever order a query returns them in. */
  ghost function TableRows(t: map<string, Knowledge>): set<Row> {
    set id | id in t :: RowOf(t[id])
  }

  lemma ListingRows(t: map<string, Knowledge>, rows: seq<Row>)
    requires Lists(t, rows)
    ensures Elems(rows) == TableRows(t)
    ensures RowIds(rows) == t.Keys
  {
    forall r | r in TableRows(t) ensures r in Elems(rows) {
      var id :| id in t && r == RowOf(t[id]);
      var i :| 0 <= i < |rows| && rows[i].id == id;
    }
  }

  datatype DeleteResponse =
    | OrphansDeleted(deletedCount: nat, deletedIds: seq<string>)
    | TitleDeleted(deletedCount: nat)
    | MissingParameter                 // status 400

  /** The table, as a class whose methods update it in place. */
  class Store {
    var table: map<string, Knowledge>

    ghost predicate Valid()
      reads this
    {
      Keyed(table)
    }

    constructor ()
      ensures Valid() && table == map[]
    {
      table := map[];
    }

    /** `ensureTable`: insert each seed whose id is absent; existing rows stay as they are. */
    method EnsureSeeds()
      requires Valid()
      modifies this
      ensures Valid()
      ensures table == WithSeeds(old(table), SeedKnowledge())
    {
      AddAbsent(SeedKnowledge());
    }

    /** The seeding loop: `INSERT … ON CONFLICT (id) DO NOTHING` for each record in turn. */
    method AddAbsent(seeds: seq<Knowledge>)
      requires Valid()
      modifies this
      ensures Valid()
      ensures table == WithSeeds(old(table), seeds)
    {
      for i := 0 to |seeds|
        invariant WithSeeds(table, seeds[i..]) == WithSeeds(old(table), seeds)
        invariant Keyed(table)
      {
        assert seeds[i..] == [seeds[i]] + seeds[i + 1..];
        table := AddIfAbsent(table, seeds[i]);
      }
    }

    /** `POST`'s duplicate check, insert and parent increment; `inserted` is false for "Already exists". */
    method Insert(k: Knowledge) returns (inserted: bool)
      requires Valid()
      modifies this
      ensures Valid()
      ensures inserted <==> k.id !in old(table)
      ensures table == if inserted then Inserted(old(table), k) else old(table)
    {
      if k.id in table {
        return false;
      }
      InsertEffect(table, k);
      table := table[k.id := Stored(k)];
      if Truthy(k.parentId) {
        if k.parentId.value in table {
          var parent := table[k.parentId.value];
          table := table[k.parentId.value := parent.(childrenCount := parent.childrenCount + 1)];
        }
      }
      inserted := true;
    }

    /** `POST /api/knowledge`: seed the table, then insert the record if its id is new. */
    method Post(k: Knowledge) returns (inserted: bool)
      requires Valid()
      modifies this
      ensures Valid()
      ensures var seeded := WithSeeds(old(table), SeedKnowledge());
        && (inserted <==> k.id !in seeded)
        && table == if inserted then Inserted(seeded, k) else seeded
    {
      EnsureSeeds();
      inserted := Insert(k);
    }

    /** `DELETE … WHERE title = …`, reporting how many rows it removed. */
    method DeleteByTitle(title: string) returns (deletedCount: nat)
      requires Valid()
      modifies this
      ensures Valid()
      ensures table == WithoutTitle(old(table), title)
      ensures deletedCount == |TitledIds(old(table), title)|
    {
      deletedCount := |TitledIds(table, title)|;
      table := WithoutTitle(table, title);
    }

    /** The cleanup's `SELECT`: every row once, in an order the store chooses. */
    method SelectRows() returns (rows: seq<Row>)
      requires Valid()
      ensures Lists(table, rows)
    {
      rows := [];
      var rest := table.Keys;
      while rest != {}
        invariant rest <= table.Keys
        invariant forall i :: 0 <= i < |rows| ==> rows[i].id in table && rows[i] == RowOf(table[rows[i].id]) && rows[i].id !in rest
        invariant UniqueRowIds(rows)
        invariant forall id :: id in table && id !in rest ==> exists i :: 0 <= i < |rows| && rows[i].id == id
        decreases rest
      {
        var id :| id in rest;
        ghost var before := rows;
        rows := rows + [RowOf(table[id])];
        rest := rest - {id};
        forall v | v in table && v !in rest
          ensures exists i :: 0 <= i < |rows| && rows[i].id == v
        {
          if v == id {
            assert rows[|before|].id == v;
          } else {
            var i :| 0 <= i < |before| && before[i].id == v;
            assert rows[i].id == v;
          }
        }
      }
    }

    /**
     * `DELETE ?cleanOrphans=true`: find the rows not connected to a seed and delete
     * them in one batch (no delete when there are none), reporting their ids.
     */
    method CleanOrphans() returns (deletedIds: seq<string>)
      requires Valid()
      modifies this
      ensures Valid()
      ensures forall id :: id in table <==> id in old(table) && Rooted(TableRows(old(table)), id)
      ensures forall id :: id in table ==> table[id] == old(table)[id]
      ensures forall id :: id in deletedIds <==> id in old(table) && id !in table
      ensures Distinct(deletedIds)
    {
      var rows := SelectRows();
      ListingRows(table, rows);
      var connected, orphanIds, passes := FindOrphans(rows);
      if |orphanIds| > 0 {
        table := map id | id in table && id !in orphanIds :: table[id];
      }
      deletedIds := orphanIds;
      UnconnectedDistinct(rows, connected);
    }

    /** `DELETE /api/knowledge`: seed, then clean orphans, or delete by title, or answer 400. */
    method Delete(title: Option<string>, cleanOrphans: Option<string>) returns (r: DeleteResponse)
      requires Valid()
      modifies this
      ensures Valid()
      ensures var seeded := WithSeeds(old(table), SeedKnowledge());
        && (cleanOrphans == Some("true") ==>
              r.OrphansDeleted? && r.deletedCount == |r.deletedIds|
              && (forall id :: id in table <==> id in seeded && Rooted(TableRows(seeded), id))
              && (forall id :: id in table ==> table[id] == seeded[id])
              && (forall id :: id in r.deletedIds <==> id in seeded && id !in table)
              && Distinct(r.deletedIds))
        && (cleanOrphans != Some("true") && Truthy(title) ==>
              r == TitleDeleted(|TitledIds(seeded, title.value)|) && table == WithoutTitle(seeded, title.value))
        && (cleanOrphans != Some("true") && !Truthy(title) ==> r == MissingParameter && table == seeded)
    {
      EnsureSeeds();
      if cleanOrphans == Some("true") {
        var deletedIds := CleanOrphans();
        r := OrphansDeleted(|deletedIds|, deletedIds);
      } else if Truthy(title) {
        var deletedCount := DeleteByTitle(title.value);
        r := TitleDeleted(deletedCount);
      } else {
        r := MissingParameter;
      }
    }
  }

  /** With unique row ids, the orphan list names each orphan once. */
  lemma {:induction false} UnconnectedDistinct(rows: seq<Row>, connected: set<string>)
    requires UniqueRowIds(rows)
    ensures Distinct(Unconnected(rows, connected))
  {
    if rows != [] {
      UnconnectedDistinct(rows[1..], connected);
      var rest := Unconnected(rows[1..], connected);
      forall r | r in rows[1..] ensures r.id != rows[0].id {
        var k :| 0 <= k < |rows[1..]| && rows[1..][k] == r;
        assert rows[k + 1] == r;
      }
      assert rows[0].id !in rest;
      var ids := Unconnected(rows, connected);
      if rows[0].id !in connected {
        assert ids == [rows[0].id] + rest;
        forall i, j | 0 <= i < j < |ids| ensures ids[i] != ids[j] {
          assert ids[j] == rest[j - 1];
          if i > 0 {
            assert ids[i] == rest[i - 1];
          }
        }
      } else {
        assert ids == rest;
      }
    }
  }
}
