/** The bounded preview cache: one row per request, evicted oldest attempt first. */
module PreviewStore {
  import opened Common

  /** A 64-digit hexadecimal digest, ordered as SQLite orders the text: by the number it spells. */
  type Key = nat

  const MAX_IMAGE_BYTES: nat := 8 * 1024 * 1024
  const MAX_URL: nat := 16384
  const MAX_TITLE: nat := 4096
  const MAX_DESCRIPTION: nat := 16384

  const MAX_ENTRIES: nat := 1000
  const MAX_PAYLOAD_BYTES: nat := (256 * 1024 * 1024 - 1024 * 1024) / 2 - 4 * 1024 * 1024

  /** What a capture returned; `urlOk` is the verdict of `valid_url` on its final URL, its length apart. */
  datatype Captured = Captured(
    finalUrl: string,
    urlOk: bool,
    title: Option<string>,
    description: Option<string>,
    screenshot: Option<seq<byte>>)

  /** The stored response: a capture, with or without an image, or the negative answer. */
  datatype Response =
    | Ready(title: Option<string>, description: Option<string>, finalUrl: string, capturedAt: int, hasImage: bool)
    | Unavailable

  datatype Row = Row(response: Response, image: Option<seq<byte>>, captured: Option<int>, attempted: int, bytes: nat)

  type Rows = map<Key, Row>

  // ---- What a result is worth ----

  predicate ShortEnough(text: Option<string>, limit: nat) {
    text.None? || |text.value| <= limit
  }

  /** A failed capture, an unacceptable URL or overlong text all count as no capture. */
  function Usable(result: Option<Captured>): Option<Captured> {
    if result.Some? && result.value.urlOk && |result.value.finalUrl| <= MAX_URL
       && ShortEnough(result.value.title, MAX_TITLE)
       && ShortEnough(result.value.description, MAX_DESCRIPTION)
    then result else None
  }

  /** Only a JPEG of bounded size is stored. */
  function UsableImage(screenshot: Option<seq<byte>>): Option<seq<byte>> {
    if screenshot.Some? && |screenshot.value| <= MAX_IMAGE_BYTES && [0xff, 0xd8, 0xff] <= screenshot.value
    then screenshot else None
  }

  /** The row `save` builds; `jsonLen` is the length of the serialized response. */
  function NewRow(jsonLen: Response -> nat, capture: Option<Captured>, now: int): Row {
    match capture
    case Some(c) =>
      var image := UsableImage(c.screenshot);
      var response := Ready(c.title, c.description, c.finalUrl, now, image.Some?);
      Row(response, image, Some(now), now, jsonLen(response) + if image.Some? then |image.value| else 0)
    case None => Row(Unavailable, None, None, now, jsonLen(Unavailable))
  }

  // ---- Totals ----

  ghost function Total(m: Rows): nat {
    if m == map[] then 0
    else
      var k :| k in m;
      m[k].bytes + Total(m - {k})
  }

  lemma {:induction false} TotalRemove(m: Rows, k: Key)
    requires k in m
    ensures Total(m) == m[k].bytes + Total(m - {k})
    decreases |m|
  {
    var j :| j in m && Total(m) == m[j].bytes + Total(m - {j});
    if j != k {
      TotalRemove(m - {j}, k);
      TotalRemove(m - {k}, j);
      assert m - {j} - {k} == m - {k} - {j};
    }
  }

  /** `m` is part of `n`. */
  ghost predicate Within(m: Rows, n: Rows) {
    forall k :: k in m ==> k in n && n[k] == m[k]
  }

  lemma {:induction false} TotalMonotone(m: Rows, n: Rows)
    requires Within(m, n)
    ensures Total(m) <= Total(n) && |m| <= |n|
    decreases |n|
  {
    if m == map[] {
    } else {
      var k :| k in m;
      TotalMonotone(m - {k}, n - {k});
      TotalRemove(m, k);
      TotalRemove(n, k);
    }
  }

  method SumBytes(m: Rows) returns (n: nat)
    ensures n == Total(m)
  {
    n := 0;
    var rest := m;
    while rest != map[]
      invariant n + Total(rest) == Total(m)
      decreases |rest|
    {
      var k :| k in rest;
      TotalRemove(rest, k);
      n := n + rest[k].bytes;
      rest := rest - {k};
    }
  }

  // ---- Eviction ----

  /** `ORDER BY attempted, key`. */
  predicate Before(m: Rows, a: Key, b: Key)
    requires a in m && b in m
  {
    m[a].attempted < m[b].attempted || (m[a].attempted == m[b].attempted && a < b)
  }

  ghost predicate Room(m: Rows, bytes: nat, maxEntries: nat, maxBytes: nat) {
    |m| < maxEntries && Total(m) + bytes <= maxBytes
  }

  lemma RoomShrinks(m: Rows, n: Rows, bytes: nat, maxEntries: nat, maxBytes: nat)
    requires Within(m, n) && Room(n, bytes, maxEntries, maxBytes)
    ensures Room(m, bytes, maxEntries, maxBytes)
  {
    TotalMonotone(m, n);
  }

  /** Survivors untouched, and everything evicted comes before everything that survives. */
  ghost predicate Suffix(left: Rows, all: Rows) {
    && Within(left, all)
    && forall e, k :: e in all && e !in left && k in left ==> Before(all, e, k)
  }

  /** `last` is the youngest evicted row, and keeping it would have left too little room. */
  ghost predicate LastEvicted(left: Rows, all: Rows, last: Key, bytes: nat, maxEntries: nat, maxBytes: nat) {
    && last in all && last !in left
    && (forall e :: e in all && e !in left && e != last ==> Before(all, e, last))
    && !Room(left[last := all[last]], bytes, maxEntries, maxBytes)
  }

  /** `left` is what remains of `all` after evicting the shortest prefix that makes room. */
  ghost predicate ShortestEviction(left: Rows, all: Rows, bytes: nat, maxEntries: nat, maxBytes: nat) {
    && Suffix(left, all) && Room(left, bytes, maxEntries, maxBytes)
    && (left == all || exists last :: LastEvicted(left, all, last, bytes, maxEntries, maxBytes))
  }

  /** There is only one such remainder, so the predicate pins the eviction down completely. */
  lemma EvictionIsUnique(x: Rows, y: Rows, all: Rows, bytes: nat, maxEntries: nat, maxBytes: nat)
    requires ShortestEviction(x, all, bytes, maxEntries, maxBytes)
    requires ShortestEviction(y, all, bytes, maxEntries, maxBytes)
    ensures x == y
  {
    NoFurther(x, y, all, bytes, maxEntries, maxBytes);
    NoFurther(y, x, all, bytes, maxEntries, maxBytes);
  }

  lemma KeepsYounger(x: Rows, all: Rows, k: Key, j: Key)
    requires Suffix(x, all) && k in x && k in all && j in all && (j == k || Before(all, k, j))
    ensures j in x
  {
  }

  lemma NoFurther(x: Rows, y: Rows, all: Rows, bytes: nat, maxEntries: nat, maxBytes: nat)
    requires ShortestEviction(x, all, bytes, maxEntries, maxBytes)
    requires ShortestEviction(y, all, bytes, maxEntries, maxBytes)
    ensures Within(x, y)
  {
    if k :| k in x && k !in y {
      var last :| LastEvicted(y, all, last, bytes, maxEntries, maxBytes);
      // `last` is no older than `k`, which `x` kept, so `x` kept `last` and all of `y` too.
      forall j | j in y || j == last ensures j in x {
        KeepsYounger(x, all, k, j);
      }
      RoomShrinks(y[last := all[last]], x, bytes, maxEntries, maxBytes);
    }
  }

  method FindOldest(m: Rows) returns (oldest: Key)
    requires m != map[]
    ensures oldest in m && forall k :: k in m && k != oldest ==> Before(m, oldest, k)
  {
    oldest :| oldest in m;
    var todo := m.Keys - {oldest};
    while todo != {}
      invariant oldest in m && todo <= m.Keys
      invariant forall k :: k in m && k !in todo && k != oldest ==> Before(m, oldest, k)
    {
      var k :| k in todo;
      if Before(m, k, oldest) {
        oldest := k;
      }
      todo := todo - {k};
    }
  }

  lemma EvictOne(left: Rows, all: Rows, oldest: Key, bytes: nat, maxEntries: nat, maxBytes: nat)
    requires Suffix(left, all) && !Room(left, bytes, maxEntries, maxBytes)
    requires oldest in left && forall k :: k in left && k != oldest ==> Before(left, oldest, k)
    ensures Suffix(left - {oldest}, all) && LastEvicted(left - {oldest}, all, oldest, bytes, maxEntries, maxBytes)
  {
    var left' := left - {oldest};
    assert left'[oldest := all[oldest]] == left;
    forall e, k | e in all && e !in left' && k in left' ensures Before(all, e, k) {
      assert e == oldest ==> Before(left, oldest, k);
    }
  }

  /** The eviction loop. It ends because an empty table always has room for one admissible row. */
  method Evict(all: Rows, bytes: nat, maxEntries: nat, maxBytes: nat) returns (left: Rows)
    requires maxEntries >= 1 && bytes <= maxBytes
    ensures ShortestEviction(left, all, bytes, maxEntries, maxBytes)
  {
    left := all;
    var size := SumBytes(left);
    while !(|left| < maxEntries && size + bytes <= maxBytes)
      invariant size == Total(left) && Suffix(left, all)
      invariant left == all || exists last :: LastEvicted(left, all, last, bytes, maxEntries, maxBytes)
      decreases |left|
    {
      var oldest := FindOldest(left);
      EvictOne(left, all, oldest, bytes, maxEntries, maxBytes);
      left := left - {oldest};
      size := SumBytes(left);
    }
  }

  // ---- Saving ----

  ghost predicate Bounded(m: Rows, maxEntries: nat, maxBytes: nat) {
    |m| <= maxEntries && Total(m) <= maxBytes
  }

  /** The three outcomes of `save`. */
  datatype SaveKind = Refreshed | TooLarge | Inserted

  function KindOfSave(m: Rows, key: Key, capture: Option<Captured>, bytes: nat, maxBytes: nat): SaveKind {
    if capture.None? && key in m && m[key].captured.Some? then Refreshed
    else if bytes > maxBytes then TooLarge
    else Inserted
  }

  /** The table after `save`. */
  ghost predicate Saves(m: Rows, m': Rows, jsonLen: Response -> nat, key: Key, result: Option<Captured>, now: int,
                        maxEntries: nat, maxBytes: nat) {
    var capture := Usable(result);
    var row := NewRow(jsonLen, capture, now);
    match KindOfSave(m, key, capture, row.bytes, maxBytes)
    case Refreshed => key in m && m' == m[key := m[key].(attempted := now)]
    case TooLarge => m' == m
    case Inserted =>
      key in m' && m'[key] == row && ShortestEviction(m' - {key}, m - {key}, row.bytes, maxEntries, maxBytes)
  }

  lemma Reinsert(left: Rows, others: Rows, key: Key, row: Row, maxEntries: nat, maxBytes: nat)
    requires key !in others && ShortestEviction(left, others, row.bytes, maxEntries, maxBytes)
    ensures ShortestEviction(left[key := row] - {key}, others, row.bytes, maxEntries, maxBytes)
  {
    assert left[key := row] - {key} == left;
  }

  method SaveRows(rows: Rows, jsonLen: Response -> nat, key: Key, result: Option<Captured>, now: int,
                  maxEntries: nat, maxBytes: nat) returns (rows': Rows)
    requires maxEntries >= 1
    ensures Saves(rows, rows', jsonLen, key, result, now, maxEntries, maxBytes)
  {
    var capture := Usable(result);
    if capture.None? && key in rows && rows[key].captured.Some? {
      return rows[key := rows[key].(attempted := now)];
    }
    var row := NewRow(jsonLen, capture, now);
    if row.bytes > maxBytes {
      return rows;
    }
    var left := Evict(rows - {key}, row.bytes, maxEntries, maxBytes);
    Reinsert(left, rows - {key}, key, row, maxEntries, maxBytes);
    return left[key := row];
  }

  class Store {
    var rows: Rows
    const maxEntries: nat
    const maxBytes: nat

    constructor (maxEntries: nat, maxBytes: nat)
      ensures rows == map[] && this.maxEntries == maxEntries && this.maxBytes == maxBytes
    {
      rows := map[];
      this.maxEntries := maxEntries;
      this.maxBytes := maxBytes;
    }

    method Save(jsonLen: Response -> nat, key: Key, result: Option<Captured>, now: int)
      requires maxEntries >= 1
      modifies this
      ensures Saves(old(rows), rows, jsonLen, key, result, now, maxEntries, maxBytes)
    {
      rows := SaveRows(rows, jsonLen, key, result, now, maxEntries, maxBytes);
    }
  }

  lemma RefreshStaysBounded(m: Rows, key: Key, now: int, maxEntries: nat, maxBytes: nat)
    requires key in m && Bounded(m, maxEntries, maxBytes)
    ensures Bounded(m[key := m[key].(attempted := now)], maxEntries, maxBytes)
  {
    var m' := m[key := m[key].(attempted := now)];
    TotalRemove(m, key);
    TotalRemove(m', key);
    assert m' - {key} == m - {key} && m'.Keys == m.Keys;
    assert |m'| == |m'.Keys| && |m| == |m.Keys|;
  }

  lemma InsertStaysBounded(m': Rows, key: Key, bytes: nat, maxEntries: nat, maxBytes: nat)
    requires key in m' && m'[key].bytes == bytes && Room(m' - {key}, bytes, maxEntries, maxBytes)
    ensures Bounded(m', maxEntries, maxBytes)
  {
    var left := m' - {key};
    TotalRemove(m', key);
    assert m'.Keys == left.Keys + {key};
    assert |m'| == |m'.Keys| && |left| == |left.Keys|;
  }

  /** Saving never exceeds either bound: it keeps them, and an insertion establishes them. */
  lemma SaveStaysBounded(m: Rows, m': Rows, jsonLen: Response -> nat, key: Key, result: Option<Captured>, now: int,
                         maxEntries: nat, maxBytes: nat)
    requires Saves(m, m', jsonLen, key, result, now, maxEntries, maxBytes)
    ensures Bounded(m, maxEntries, maxBytes)
            || KindOfSave(m, key, Usable(result), NewRow(jsonLen, Usable(result), now).bytes, maxBytes).Inserted?
            ==> Bounded(m', maxEntries, maxBytes)
  {
    var row := NewRow(jsonLen, Usable(result), now);
    match KindOfSave(m, key, Usable(result), row.bytes, maxBytes) {
      case TooLarge =>
      case Refreshed =>
        if Bounded(m, maxEntries, maxBytes) {
          RefreshStaysBounded(m, key, now, maxEntries, maxBytes);
        }
      case Inserted => InsertStaysBounded(m', key, row.bytes, maxEntries, maxBytes);
    }
  }

  /** In numbers: a cache of at most a thousand rows and 129 499 136 bytes stays one. */
  lemma CacheStaysSmall(m: Rows, m': Rows, jsonLen: Response -> nat, key: Key, result: Option<Captured>, now: int)
    requires Saves(m, m', jsonLen, key, result, now, MAX_ENTRIES, MAX_PAYLOAD_BYTES)
    requires |m| <= 1000 && Total(m) <= 129_499_136
    ensures |m'| <= 1000 && Total(m') <= 129_499_136
  {
    SaveStaysBounded(m, m', jsonLen, key, result, now, MAX_ENTRIES, MAX_PAYLOAD_BYTES);
  }

  // ---- What is saved, field by field ----

  /** The limits on a capture, in bytes. */
  predicate Acceptable(c: Captured) {
    && c.urlOk && |c.finalUrl| <= 16384
    && (c.title.Some? ==> |c.title.value| <= 4096) && (c.description.Some? ==> |c.description.value| <= 16384)
  }

  /** Eight mebibytes at most, starting like a JPEG. */
  predicate IsScreenshot(bytes: seq<byte>) {
    |bytes| <= 8388608 && |bytes| >= 3 && bytes[0] == 255 && bytes[1] == 216 && bytes[2] == 255
  }

  /** A row that holds exactly what was captured. */
  predicate Holds(row: Row, c: Captured, now: int, jsonLen: Response -> nat) {
    && row.attempted == now && row.captured == Some(now) && row.response.Ready?
    && row.response.title == c.title && row.response.description == c.description
    && row.response.finalUrl == c.finalUrl && row.response.capturedAt == now
    && (row.response.hasImage <==> c.screenshot.Some? && IsScreenshot(c.screenshot.value))
    && row.image == (if row.response.hasImage then c.screenshot else None)
    && row.bytes == jsonLen(row.response) + if row.image.Some? then |row.image.value| else 0
  }

  /** What a save does to its own key. */
  lemma SaveMeans(m: Rows, m': Rows, jsonLen: Response -> nat, key: Key, result: Option<Captured>, now: int,
                  maxEntries: nat, maxBytes: nat)
    requires Saves(m, m', jsonLen, key, result, now, maxEntries, maxBytes)
    ensures result.Some? && Acceptable(result.value) ==>
              || (key in m' && Holds(m'[key], result.value, now, jsonLen) && m'[key].bytes <= maxBytes)
              || (m' == m && exists row :: Holds(row, result.value, now, jsonLen) && row.bytes > maxBytes)
    ensures !(result.Some? && Acceptable(result.value)) && key in m && m[key].captured.Some? ==>
              m' == m[key := Row(m[key].response, m[key].image, m[key].captured, now, m[key].bytes)]
    ensures !(result.Some? && Acceptable(result.value)) && !(key in m && m[key].captured.Some?) ==>
              if jsonLen(Unavailable) > maxBytes then m' == m
              else key in m' && m'[key] == Row(Unavailable, None, None, now, jsonLen(Unavailable))
  {
    var row := NewRow(jsonLen, Usable(result), now);
    if result.Some? && Acceptable(result.value) {
      ScreenshotMeans(result.value.screenshot);
      assert Holds(row, result.value, now, jsonLen);
    }
  }

  lemma ScreenshotMeans(screenshot: Option<seq<byte>>)
    ensures UsableImage(screenshot) ==
            if screenshot.Some? && IsScreenshot(screenshot.value) then screenshot else None
  {
    if screenshot.Some? && |screenshot.value| >= 3 {
      assert [0xff, 0xd8, 0xff] <= screenshot.value <==>
             screenshot.value[0] == 0xff && screenshot.value[1] == 0xd8 && screenshot.value[2] == 0xff;
    }
  }

  /** Who goes first: the earlier attempt, and the smaller key of two equal ones. */
  lemma EvictionOrder(left: Rows, all: Rows, bytes: nat, maxEntries: nat, maxBytes: nat, e: Key, k: Key)
    requires ShortestEviction(left, all, bytes, maxEntries, maxBytes) && e in all && e !in left && k in left
    ensures k in all && left[k] == all[k]
    ensures all[e].attempted < all[k].attempted || (all[e].attempted == all[k].attempted && e < k)
  {
    assert Before(all, e, k);
  }

  // ---- Every row fits the budget ----

  function TextLength(text: Option<string>): nat {
    if text.Some? then |text.value| else 0
  }

  /** JSON spells a byte of text with at most six, and everything else in a response is short. */
  ghost predicate JsonLaw(jsonLen: Response -> nat) {
    forall r :: jsonLen(r) <= 1024 + match r
                                     case Ready(title, description, url, _, _) =>
                                       6 * (TextLength(title) + TextLength(description) + |url|)
                                     case Unavailable => 0
  }

  /** At the code's limits no row is too large to be saved. */
  lemma NothingIsTooLarge(m: Rows, jsonLen: Response -> nat, key: Key, result: Option<Captured>, now: int)
    requires JsonLaw(jsonLen)
    ensures var row := NewRow(jsonLen, Usable(result), now);
            !KindOfSave(m, key, Usable(result), row.bytes, MAX_PAYLOAD_BYTES).TooLarge?
  {
    var row := NewRow(jsonLen, Usable(result), now);
    assert jsonLen(row.response) <= 1024 + 6 * (MAX_TITLE + MAX_DESCRIPTION + MAX_URL);
  }

  /** A failed refresh never loses a stored capture, and no save touches another row except by evicting it. */
  lemma SaveLosesNothingElse(m: Rows, m': Rows, jsonLen: Response -> nat, key: Key, result: Option<Captured>, now: int,
                             maxEntries: nat, maxBytes: nat, k: Key)
    requires Saves(m, m', jsonLen, key, result, now, maxEntries, maxBytes)
    ensures Usable(result).None? && key in m && m[key].captured.Some? ==>
              key in m' && m'[key] == m[key].(attempted := now)
    ensures k != key && k in m' ==> k in m && m'[k] == m[k]
  {
    if k != key && k in m' {
      assert k in m' - {key};
    }
  }
}
