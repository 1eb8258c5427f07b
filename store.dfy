// The persistence layer of src/pdf_viewer/core.rs: how recent files,
// bookmarks, markdown notes, text markups, open tabs, title-bar and theme
// preferences and saved page positions are laid out in sled trees, the
// loaders that read them back and the `persist_*` writers. Indexed records
// sit under 4-byte big-endian keys; the loaders skip everything else.
module Store {
  import opened Bytes
  import opened Wrappers
  import Utf8
  import opened Sled
  import opened Types
  import Text

  const MAX_RECENT_FILES: nat := 12

  /** Keys of the single-valued records. The names of the theme keys are
      defined in src/pdf_viewer/constants.rs, which is not part of this
      model; any three distinct names behave the same. */
  const OPEN_TABS_KEY_ACTIVE_INDEX: Key := [97, 99, 116, 105, 118, 101, 95, 105, 110, 100, 101, 120] /* b"active_index" */
  const TITLEBAR_KEY_SHOW_NAVIGATION: Key := [115, 104, 111, 119, 95, 110, 97, 118, 105, 103, 97, 116, 105, 111, 110] /* b"show_navigation" */
  const TITLEBAR_KEY_SHOW_ZOOM: Key := [115, 104, 111, 119, 95, 122, 111, 111, 109] /* b"show_zoom" */
  const THEME_KEY_MODE: Key := [116, 104, 101, 109, 101, 95, 109, 111, 100, 101] /* b"theme_mode" */
  const THEME_KEY_LIGHT_NAME: Key := [108, 105, 103, 104, 116, 95, 116, 104, 101, 109, 101, 95, 110, 97, 109, 101] /* b"light_theme_name" */
  const THEME_KEY_DARK_NAME: Key := [100, 97, 114, 107, 95, 116, 104, 101, 109, 101, 95, 110, 97, 109, 101] /* b"dark_theme_name" */

  /** `(index as u32).to_be_bytes()`: the key of the `index`-th record. */
  function IndexKey(index: nat): (k: Key)
    ensures |k| == 4 && DecodeBE(k) == index % U32_LIMIT
  {
    Pow256Values();
    DecodeEncodeBE(index % U32_LIMIT, 4);
    EncodeBE(index % U32_LIMIT, 4)
  }

  /** `(n as u64).to_be_bytes()`. */
  function U64Bytes(n: nat): (b: Value)
    ensures |b| == 8 && DecodeBE(b) == n % U64_LIMIT
  {
    Pow256Values();
    DecodeEncodeBE(n % U64_LIMIT, 8);
    EncodeBE(n % U64_LIMIT, 8)
  }

  // ---------------------------------------------------------------------
  // Value codecs

  /** `String::from_utf8(value)` kept only when it is not empty. */
  function DecodeNonEmptyString(value: Value): (r: Option<string>)
    ensures r.Some? <==> Utf8.Decode(value).Some? && Utf8.Decode(value).value != []
    ensures r.Some? ==> r == Utf8.Decode(value)
  {
    match Utf8.Decode(value)
    case Some(s) => if s == [] then None else Some(s)
    case None => None
  }

  lemma NonEmptyStringRoundTrip(s: string)
    requires s != []
    ensures DecodeNonEmptyString(Utf8.Encode(s)) == Some(s)
  {
    Utf8.DecodeEncode(s);
  }

  /** `decode_stored_string`. */
  function DecodeStoredString(value: Option<Value>): (r: Option<string>)
    ensures value.None? ==> r.None?
    ensures value.Some? ==> r == DecodeNonEmptyString(value.value)
  {
    match value
    case None => None
    case Some(v) => DecodeNonEmptyString(v)
  }

  /** `u8::from(b)` as a one-byte value. */
  function EncodeBool(b: bool): (r: Value)
    ensures |r| == 1
  {
    if b then [1] else [0]
  }

  /** `decode_stored_bool`: the first byte is non-zero; a missing or empty
      value gives the default. */
  function DecodeStoredBool(value: Option<Value>, default: bool): (r: bool)
    ensures value.None? || value.value == [] ==> r == default
    ensures value.Some? && value.value != [] ==> (r <==> value.value[0] != 0)
  {
    match value
    case None => default
    case Some(raw) => if raw == [] then default else raw[0] != 0
  }

  lemma StoredBoolRoundTrip(b: bool, default: bool)
    ensures DecodeStoredBool(Some(EncodeBool(b)), default) == b
  {
  }

  function EncodeThemeMode(m: ThemeMode): (r: Value)
    ensures |r| > 0
  {
    match m
    case Light => [108, 105, 103, 104, 116] /* b"light" */
    case Dark => [100, 97, 114, 107] /* b"dark" */
  }

  /** The stored theme mode: exactly `light` or `dark`, else the default. */
  function DecodeThemeMode(value: Option<Value>, default: ThemeMode): (r: ThemeMode)
    ensures value.None? ==> r == default
    ensures value.Some? && value.value != EncodeThemeMode(Light) && value.value != EncodeThemeMode(Dark) ==> r == default
  {
    match value
    case None => default
    case Some(raw) =>
      if raw == EncodeThemeMode(Light) then Light
      else if raw == EncodeThemeMode(Dark) then Dark
      else default
  }

  lemma ThemeModeRoundTrip(m: ThemeMode, default: ThemeMode)
    ensures DecodeThemeMode(Some(EncodeThemeMode(m)), default) == m
  {
    assert EncodeThemeMode(Light)[0] != EncodeThemeMode(Dark)[0];
  }

  /** The bookmark layout: 8-byte page, 8-byte creation time, UTF-8 path. */
  function EncodeBookmark(b: BookmarkEntry): (r: Value)
    ensures |r| >= 16
  {
    U64Bytes(b.pageIndex) + U64Bytes(b.createdAtUnixSecs) + Utf8.Encode(b.path)
  }

  function BookmarkValue(b: BookmarkEntry): Option<Value>
  {
    Some(EncodeBookmark(b))
  }

  /** `decode_bookmark_entry_from_store`: at least 9 bytes; 17 or more are
      read as page, creation time and path, fewer as the older layout of
      page and path with creation time 0; the path must be non-empty UTF-8. */
  function DecodeBookmark(value: Value): (r: Option<BookmarkEntry>)
    ensures |value| < 9 ==> r.None?
    ensures r.Some? ==> r.value.path != [] && r.value.pageIndex == DecodeBE(value[..8])
    ensures r.Some? && |value| >= 17 ==>
      r.value.createdAtUnixSecs == DecodeBE(value[8..16]) && Utf8.Encode(r.value.path) == value[16..]
    ensures r.Some? && |value| < 17 ==>
      r.value.createdAtUnixSecs == 0 && Utf8.Encode(r.value.path) == value[8..]
  {
    if |value| < 9 then None
    else
      var page := DecodeBE(value[..8]);
      var created := if |value| >= 17 then DecodeBE(value[8..16]) else 0;
      var pathBytes := if |value| >= 17 then value[16..] else value[8..];
      match DecodeNonEmptyString(pathBytes)
      case None => None
      case Some(p) =>
        Utf8.EncodeDecode(pathBytes);
        Some(BookmarkEntry(p, page, created))
  }

  /** What `persist_bookmarks` writes, `decode_bookmark_entry_from_store` reads back. */
  lemma BookmarkRoundTrip(b: BookmarkEntry)
    requires b.path != []
    requires b.pageIndex < U64_LIMIT && b.createdAtUnixSecs < U64_LIMIT
    ensures DecodeBookmark(EncodeBookmark(b)) == Some(b)
  {
    var page, created, path := U64Bytes(b.pageIndex), U64Bytes(b.createdAtUnixSecs), Utf8.Encode(b.path);
    var v := page + created + path;
    assert |path| >= 1;
    assert v[..8] == page && v[8..16] == created && v[16..] == path;
    NonEmptyStringRoundTrip(b.path);
  }

  /** An older-layout record is read with creation time 0 when its path
      takes 1 to 8 bytes. */
  lemma LegacyBookmark(page: nat, path: string)
    requires page < U64_LIMIT && 1 <= |Utf8.Encode(path)| <= 8
    ensures DecodeBookmark(U64Bytes(page) + Utf8.Encode(path)) == Some(BookmarkEntry(path, page, 0))
  {
    var v := U64Bytes(page) + Utf8.Encode(path);
    assert v[..8] == U64Bytes(page) && v[8..] == Utf8.Encode(path);
    Utf8.DecodeEncode(path);
  }

  /** An older-layout record whose path takes 9 bytes or more is read in the
      newer layout, so it never comes back as the bookmark it recorded. */
  lemma LegacyBookmarkWithLongPath(page: nat, path: string)
    requires |Utf8.Encode(path)| >= 9
    ensures DecodeBookmark(U64Bytes(page) + Utf8.Encode(path)) != Some(BookmarkEntry(path, page, 0))
  {
    var v := U64Bytes(page) + Utf8.Encode(path);
    assert |v| >= 17;
  }

  // ---------------------------------------------------------------------
  // Indexed records (`load_bookmarks_from_store` and its siblings)

  /** The records a loader collects, in iteration order: every entry whose
      key has 4 bytes and whose value decodes, with the key's index. */
  function Indexed<T>(es: seq<Entry>, decode: Value -> Option<T>): (r: seq<(nat, T)>)
    ensures |r| <= |es|
  {
    if es == [] then []
    else
      var rest := Indexed(es[..|es| - 1], decode);
      var e := es[|es| - 1];
      if |e.0| == 4 && decode(e.1).Some? then rest + [(DecodeBE(e.0), decode(e.1).value)]
      else rest
  }

  function Values<T>(s: seq<(nat, T)>): (r: seq<T>)
    ensures |r| == |s| && forall i :: 0 <= i < |s| ==> r[i] == s[i].1
  {
    seq(|s|, i requires 0 <= i < |s| => s[i].1)
  }

  predicate SortedByIndex<T>(s: seq<(nat, T)>)
  {
    forall i, j :: 0 <= i < j < |s| ==> s[i].0 <= s[j].0
  }

  predicate StrictlyIncreasing<T>(s: seq<(nat, T)>)
  {
    forall i, j :: 0 <= i < j < |s| ==> s[i].0 < s[j].0
  }

  /** Inserting after every element whose index is not larger keeps the
      sort stable. */
  function InsertByIndex<T>(s: seq<(nat, T)>, x: (nat, T)): (r: seq<(nat, T)>)
    ensures multiset(r) == multiset(s) + multiset{x}
  {
    if s == [] || s[|s| - 1].0 <= x.0 then s + [x]
    else
      var last := s[|s| - 1];
      assert s == s[..|s| - 1] + [last];
      InsertByIndex(s[..|s| - 1], x) + [last]
  }

  /** `sort_by_key(|(index, _)| *index)`, a stable insertion sort. */
  function SortByIndex<T>(s: seq<(nat, T)>): (r: seq<(nat, T)>)
    ensures multiset(r) == multiset(s)
  {
    if s == [] then []
    else
      assert s == s[..|s| - 1] + [s[|s| - 1]];
      InsertByIndex(SortByIndex(s[..|s| - 1]), s[|s| - 1])
  }

  lemma {:induction false} InsertByIndexSorted<T>(s: seq<(nat, T)>, x: (nat, T))
    requires SortedByIndex(s)
    ensures SortedByIndex(InsertByIndex(s, x))
  {
    if s != [] && s[|s| - 1].0 > x.0 {
      var init := s[..|s| - 1];
      var last := s[|s| - 1];
      InsertByIndexSorted(init, x);
      var r0 := InsertByIndex(init, x);
      forall k | 0 <= k < |r0| ensures r0[k].0 <= last.0 {
        assert r0[k] in multiset(r0);
        if r0[k] != x {
          assert r0[k] in multiset(init);
          var j :| 0 <= j < |init| && init[j] == r0[k];
          assert s[j] == r0[k];
        }
      }
    }
  }

  lemma {:induction false} SortByIndexSorted<T>(s: seq<(nat, T)>)
    ensures SortedByIndex(SortByIndex(s))
  {
    if s != [] {
      SortByIndexSorted(s[..|s| - 1]);
      InsertByIndexSorted(SortByIndex(s[..|s| - 1]), s[|s| - 1]);
    }
  }

  /** Sorting what is already strictly increasing changes nothing. */
  lemma {:induction false} SortByIndexOfIncreasing<T>(s: seq<(nat, T)>)
    requires StrictlyIncreasing(s)
    ensures SortByIndex(s) == s
  {
    if s != [] {
      var init := s[..|s| - 1];
      var last := s[|s| - 1];
      assert s == init + [last];
      assert StrictlyIncreasing(init);
      SortByIndexOfIncreasing(init);
      assert SortByIndex(s) == InsertByIndex(init, last);
    }
  }

  /** The order a loader returns: the decoded records sorted by index. */
  function Loaded<T>(es: seq<Entry>, decode: Value -> Option<T>): seq<T>
  {
    Values(SortByIndex(Indexed(es, decode)))
  }

  /** Every collected index comes from a 4-byte key of the entries. */
  lemma {:induction false} IndexedBelow<T>(es: seq<Entry>, decode: Value -> Option<T>, bound: nat)
    requires forall i :: 0 <= i < |es| && |es[i].0| == 4 ==> DecodeBE(es[i].0) < bound
    ensures forall i :: 0 <= i < |Indexed(es, decode)| ==> Indexed(es, decode)[i].0 < bound
  {
    if es != [] {
      IndexedBelow(es[..|es| - 1], decode, bound);
    }
  }

  /** Ascending keys give strictly increasing indices. */
  lemma {:induction false} IndexedIncreasing<T>(es: seq<Entry>, decode: Value -> Option<T>)
    requires Ascending(es)
    ensures StrictlyIncreasing(Indexed(es, decode))
  {
    if es != [] {
      var init := es[..|es| - 1];
      var e := es[|es| - 1];
      assert Ascending(init);
      IndexedIncreasing(init, decode);
      if |e.0| == 4 && decode(e.1).Some? {
        forall i | 0 <= i < |init| && |init[i].0| == 4 ensures DecodeBE(init[i].0) < DecodeBE(e.0) {
          LexLessIsNumericOrder(init[i].0, e.0);
        }
        IndexedBelow(init, decode, DecodeBE(e.0));
      }
    }
  }

  /** What a loader returns from a tree: the records in key order. */
  lemma LoadedInKeyOrder<T>(es: seq<Entry>, decode: Value -> Option<T>)
    requires Ascending(es)
    ensures Loaded(es, decode) == Values(Indexed(es, decode))
  {
    IndexedIncreasing(es, decode);
    SortByIndexOfIncreasing(Indexed(es, decode));
  }

  /** The loop shared by `load_bookmarks_from_store`,
      `load_markdown_notes_from_store`, `load_text_markups_from_store` and
      the tab part of `load_open_tabs_from_store`. */
  method LoadIndexed<T>(store: Tree, decode: Value -> Option<T>) returns (r: seq<T>)
    requires store.Valid()
    ensures r == Loaded(store.entries, decode)
    ensures r == Values(Indexed(store.entries, decode))
  {
    var indexed: seq<(nat, T)> := [];
    var i := 0;
    while i < |store.entries|
      invariant 0 <= i <= |store.entries|
      invariant indexed == Indexed(store.entries[..i], decode)
    {
      var key := store.entries[i].0;
      var value := store.entries[i].1;
      assert store.entries[..i + 1][..i] == store.entries[..i];
      if |key| == 4 {
        var decoded := decode(value);
        if decoded.Some? {
          indexed := indexed + [(DecodeBE(key), decoded.value)];
        }
      }
      i := i + 1;
    }
    assert store.entries[..i] == store.entries;
    indexed := SortByIndex(indexed);
    r := Values(indexed);
    LoadedInKeyOrder(store.entries, decode);
  }

  /** The entries `clear` followed by inserting each encodable item under
      its enumeration index leaves behind. */
  function Written<T>(items: seq<T>, encode: T -> Option<Value>): (r: seq<Entry>)
    ensures Ascending(r)
  {
    if items == [] then []
    else
      var n := |items| - 1;
      var rest := Written(items[..n], encode);
      match encode(items[n])
      case None => rest
      case Some(v) =>
        InsertSortedAscending(rest, IndexKey(n), v);
        InsertSorted(rest, IndexKey(n), v)
  }

  /** With fewer than 2^32 items the keys are distinct and increasing, so
      every insertion appends. */
  lemma {:induction false} WrittenKeys<T>(items: seq<T>, encode: T -> Option<Value>)
    requires |items| <= U32_LIMIT
    ensures forall i :: 0 <= i < |Written(items, encode)| ==>
      |Written(items, encode)[i].0| == 4 && DecodeBE(Written(items, encode)[i].0) < |items|
    ensures items != [] ==>
      (Written(items, encode) == Written(items[..|items| - 1], encode) +
        (match encode(items[|items| - 1]) case None => [] case Some(v) => [(IndexKey(|items| - 1), v)]))
  {
    if items != [] {
      var n := |items| - 1;
      var rest := Written(items[..n], encode);
      var w := Written(items, encode);
      WrittenKeys(items[..n], encode);
      if encode(items[n]).Some? {
        AppendIndexed(rest, n, encode(items[n]).value);
      } else {
        assert w == rest && rest + [] == rest;
      }
    }
  }

  /** A record under the next index lands after records under smaller
      4-byte indices. */
  lemma AppendIndexed(rest: seq<Entry>, n: nat, v: Value)
    requires n < U32_LIMIT
    requires forall i :: 0 <= i < |rest| ==> |rest[i].0| == 4 && DecodeBE(rest[i].0) < n
    ensures InsertSorted(rest, IndexKey(n), v) == rest + [(IndexKey(n), v)]
    ensures forall i :: 0 <= i < |rest| + 1 ==>
      |(rest + [(IndexKey(n), v)])[i].0| == 4 && DecodeBE((rest + [(IndexKey(n), v)])[i].0) < n + 1
  {
    var key := IndexKey(n);
    assert n % U32_LIMIT == n;
    forall i | 0 <= i < |rest| ensures LexLess(rest[i].0, key) {
      LexLessIsNumericOrder(rest[i].0, key);
    }
    InsertAboveAll(rest, key, v);
    var w := rest + [(key, v)];
    forall i | 0 <= i < |w| ensures |w[i].0| == 4 && DecodeBE(w[i].0) < n + 1 {
      if i < |rest| {
        assert w[i] == rest[i];
      }
    }
  }

  /** The items that survive a write and a read: those that encode and whose
      encoding decodes, as decoded. */
  function RoundTrip<T>(items: seq<T>, encode: T -> Option<Value>, decode: Value -> Option<T>): (r: seq<T>)
    ensures |r| <= |items|
  {
    if items == [] then []
    else
      var rest := RoundTrip(items[..|items| - 1], encode, decode);
      match encode(items[|items| - 1])
      case None => rest
      case Some(v) => match decode(v) case None => rest case Some(x) => rest + [x]
  }

  /** Writing records and loading them back yields `RoundTrip`. */
  lemma {:induction false} LoadWritten<T>(items: seq<T>, encode: T -> Option<Value>, decode: Value -> Option<T>)
    requires |items| <= U32_LIMIT
    ensures Loaded(Written(items, encode), decode) == RoundTrip(items, encode, decode)
  {
    LoadedInKeyOrder(Written(items, encode), decode);
    IndexedWritten(items, encode, decode);
  }

  lemma {:induction false} IndexedWritten<T>(items: seq<T>, encode: T -> Option<Value>, decode: Value -> Option<T>)
    requires |items| <= U32_LIMIT
    ensures Values(Indexed(Written(items, encode), decode)) == RoundTrip(items, encode, decode)
  {
    if items != [] {
      var n := |items| - 1;
      var init := items[..n];
      IndexedWritten(init, encode, decode);
      WrittenSnoc(items, encode);
      var rest := Written(init, encode);
      var ix := Indexed(rest, decode);
      match encode(items[n])
      case None =>
      case Some(v) =>
        IndexedSnoc(rest, (IndexKey(n), v), decode);
        match decode(v)
        case None =>
        case Some(x) =>
          ValuesSnoc(ix, (DecodeBE(IndexKey(n)), x));
    }
  }

  /** The last item's encoding, if any, is appended to the entries. */
  lemma WrittenSnoc<T>(items: seq<T>, encode: T -> Option<Value>)
    requires 0 < |items| <= U32_LIMIT
    ensures Written(items, encode) == Written(items[..|items| - 1], encode) +
      match encode(items[|items| - 1]) case None => [] case Some(v) => [(IndexKey(|items| - 1), v)]
  {
    WrittenKeys(items, encode);
  }

  lemma IndexedSnoc<T>(es: seq<Entry>, e: Entry, decode: Value -> Option<T>)
    ensures Indexed(es + [e], decode) ==
      if |e.0| == 4 && decode(e.1).Some? then Indexed(es, decode) + [(DecodeBE(e.0), decode(e.1).value)]
      else Indexed(es, decode)
  {
    var s := es + [e];
    assert s[..|s| - 1] == es;
  }

  lemma ValuesSnoc<T>(s: seq<(nat, T)>, x: (nat, T))
    ensures Values(s + [x]) == Values(s) + [x.1]
  {
  }

  /** When every item encodes and decodes to itself, the round trip is the identity. */
  lemma {:induction false} RoundTripIdentity<T>(items: seq<T>, encode: T -> Option<Value>, decode: Value -> Option<T>)
    requires forall x :: x in items ==> encode(x).Some? && decode(encode(x).value) == Some(x)
    ensures RoundTrip(items, encode, decode) == items
  {
    if items != [] {
      var n := |items| - 1;
      assert items[n] in items;
      RoundTripIdentity(items[..n], encode, decode);
      assert items == items[..n] + [items[n]];
    }
  }

  /** Every item the round trip returns was decoded from an item's encoding. */
  lemma {:induction false} RoundTripDecoded<T>(items: seq<T>, encode: T -> Option<Value>, decode: Value -> Option<T>, y: T)
    requires y in RoundTrip(items, encode, decode)
    ensures exists x :: x in items && encode(x).Some? && decode(encode(x).value) == Some(y)
  {
    var n := |items| - 1;
    var rest := RoundTrip(items[..n], encode, decode);
    if y in rest {
      RoundTripDecoded(items[..n], encode, decode, y);
      var x :| x in items[..n] && encode(x).Some? && decode(encode(x).value) == Some(y);
      assert x in items;
    } else {
      assert items[n] in items;
    }
  }

  /** The writer loop shared by `persist_bookmarks`,
      `persist_markdown_notes` and `persist_text_markups`: clear the tree,
      then insert each item's encoding under its index; an item that does
      not encode is skipped but still uses up its index. */
  method PersistIndexed<T>(store: Tree, items: seq<T>, encode: T -> Option<Value>)
    modifies store
    ensures store.Valid()
    ensures store.entries == Written(items, encode)
  {
    store.Clear();
    var i := 0;
    while i < |items|
      invariant 0 <= i <= |items|
      invariant store.Valid()
      invariant store.entries == Written(items[..i], encode)
    {
      assert items[..i + 1][..i] == items[..i];
      var encoded := encode(items[i]);
      if encoded.Some? {
        store.Insert(IndexKey(i), encoded.value);
      }
      i := i + 1;
    }
    assert items[..i] == items;
  }

  // Bookmarks

  method LoadBookmarks(store: Tree) returns (r: seq<BookmarkEntry>)
    requires store.Valid()
    ensures r == Values(Indexed(store.entries, DecodeBookmark))
    ensures forall b :: b in r ==> b.path != []
  {
    r := LoadIndexed(store, DecodeBookmark);
    forall b | b in r ensures b.path != [] {
      var i :| 0 <= i < |r| && r[i] == b;
      var ix := Indexed(store.entries, DecodeBookmark);
      IndexedDecoded(store.entries, DecodeBookmark, i);
    }
  }

  /** Each collected record is what `decode` made of some entry's value. */
  lemma {:induction false} IndexedDecoded<T>(es: seq<Entry>, decode: Value -> Option<T>, i: nat)
    requires i < |Indexed(es, decode)|
    ensures exists j :: 0 <= j < |es| && decode(es[j].1) == Some(Indexed(es, decode)[i].1)
  {
    var init := es[..|es| - 1];
    if i < |Indexed(init, decode)| {
      IndexedDecoded(init, decode, i);
      var j :| 0 <= j < |init| && decode(init[j].1) == Some(Indexed(init, decode)[i].1);
      assert es[j] == init[j];
    } else {
      assert decode(es[|es| - 1].1) == Some(Indexed(es, decode)[i].1);
    }
  }

  method PersistBookmarks(store: Tree, bookmarks: seq<BookmarkEntry>)
    modifies store
    ensures store.Valid() && store.entries == Written(bookmarks, BookmarkValue)
  {
    PersistIndexed(store, bookmarks, BookmarkValue);
  }

  /** Persisting bookmarks and loading them back returns them unchanged. */
  lemma BookmarksRoundTrip(bookmarks: seq<BookmarkEntry>)
    requires |bookmarks| <= U32_LIMIT
    requires forall b :: b in bookmarks ==> b.path != [] && b.pageIndex < U64_LIMIT && b.createdAtUnixSecs < U64_LIMIT
    ensures Loaded(Written(bookmarks, BookmarkValue), DecodeBookmark) == bookmarks
  {
    forall b | b in bookmarks ensures BookmarkValue(b).Some? && DecodeBookmark(BookmarkValue(b).value) == Some(b) {
      BookmarkRoundTrip(b);
    }
    LoadWritten(bookmarks, BookmarkValue, DecodeBookmark);
    RoundTripIdentity(bookmarks, BookmarkValue, DecodeBookmark);
  }

  // Markdown notes and text markups. Their values are serde JSON, which is
  // passed in as an encoder and a decoder.

  /** What a fully populated note deserialises to. */
  function StoredNote(n: MarkdownNoteEntry): (s: StoredMarkdownNote)
    ensures NoteWithDefaults(s) == n
  {
    StoredMarkdownNote(n.id, n.path, n.pageIndex, n.xRatio, n.yRatio, n.markdown,
      n.createdAtUnixSecs, n.updatedAtUnixSecs, Some(n.selectedText), Some(n.selectionRects))
  }

  function StoredMarkup(m: TextMarkupEntry): (s: StoredTextMarkup)
    ensures MarkupWithDefaults(s) == m
  {
    StoredTextMarkup(m.id, m.path, m.pageIndex, m.kind, Some(m.color), m.selectedText, m.rects,
      m.createdAtUnixSecs, m.updatedAtUnixSecs)
  }

  /** The note loader's per-value step: deserialise, fill defaults, and skip
      a note whose markdown is blank. */
  function NoteDecoder(deserialize: Value -> Option<StoredMarkdownNote>): (d: Value -> Option<MarkdownNoteEntry>)
    ensures forall v :: d(v).Some? ==> !Text.IsBlank(d(v).value.markdown)
  {
    v =>
      match deserialize(v)
      case None => None
      case Some(s) =>
        var n := NoteWithDefaults(s);
        if Text.IsBlank(n.markdown) then None else Some(n)
  }

  /** The markup loader's per-value step: skip a markup without rectangles. */
  function MarkupDecoder(deserialize: Value -> Option<StoredTextMarkup>): (d: Value -> Option<TextMarkupEntry>)
    ensures forall v :: d(v).Some? ==> d(v).value.rects != []
  {
    v =>
      match deserialize(v)
      case None => None
      case Some(s) =>
        var m := MarkupWithDefaults(s);
        if m.rects == [] then None else Some(m)
  }

  method LoadMarkdownNotes(store: Tree, deserialize: Value -> Option<StoredMarkdownNote>) returns (r: seq<MarkdownNoteEntry>)
    requires store.Valid()
    ensures r == Values(Indexed(store.entries, NoteDecoder(deserialize)))
  {
    r := LoadIndexed(store, NoteDecoder(deserialize));
  }

  method LoadTextMarkups(store: Tree, deserialize: Value -> Option<StoredTextMarkup>) returns (r: seq<TextMarkupEntry>)
    requires store.Valid()
    ensures r == Values(Indexed(store.entries, MarkupDecoder(deserialize)))
  {
    r := LoadIndexed(store, MarkupDecoder(deserialize));
  }

  method PersistMarkdownNotes(store: Tree, notes: seq<MarkdownNoteEntry>, serialize: MarkdownNoteEntry -> Option<Value>)
    modifies store
    ensures store.Valid() && store.entries == Written(notes, serialize)
  {
    PersistIndexed(store, notes, serialize);
  }

  method PersistTextMarkups(store: Tree, markups: seq<TextMarkupEntry>, serialize: TextMarkupEntry -> Option<Value>)
    modifies store
    ensures store.Valid() && store.entries == Written(markups, serialize)
  {
    PersistIndexed(store, markups, serialize);
  }

  /** With a JSON codec that round-trips, persisted notes with non-blank
      markdown all load back, in order. */
  lemma NotesRoundTrip(notes: seq<MarkdownNoteEntry>, serialize: MarkdownNoteEntry -> Option<Value>,
                       deserialize: Value -> Option<StoredMarkdownNote>)
    requires |notes| <= U32_LIMIT
    requires forall n :: serialize(n).Some? && deserialize(serialize(n).value) == Some(StoredNote(n))
    requires forall n :: n in notes ==> !Text.IsBlank(n.markdown)
    ensures Loaded(Written(notes, serialize), NoteDecoder(deserialize)) == notes
  {
    LoadWritten(notes, serialize, NoteDecoder(deserialize));
    RoundTripIdentity(notes, serialize, NoteDecoder(deserialize));
  }

  /** A note whose markdown is blank never loads back. */
  lemma BlankNotesAreDropped(notes: seq<MarkdownNoteEntry>, serialize: MarkdownNoteEntry -> Option<Value>,
                             deserialize: Value -> Option<StoredMarkdownNote>, n: MarkdownNoteEntry)
    requires |notes| <= U32_LIMIT
    requires n in Loaded(Written(notes, serialize), NoteDecoder(deserialize))
    ensures !Text.IsBlank(n.markdown)
  {
    LoadWritten(notes, serialize, NoteDecoder(deserialize));
    RoundTripDecoded(notes, serialize, NoteDecoder(deserialize), n);
  }

  lemma MarkupsRoundTrip(markups: seq<TextMarkupEntry>, serialize: TextMarkupEntry -> Option<Value>,
                         deserialize: Value -> Option<StoredTextMarkup>)
    requires |markups| <= U32_LIMIT
    requires forall m :: serialize(m).Some? && deserialize(serialize(m).value) == Some(StoredMarkup(m))
    requires forall m :: m in markups ==> m.rects != []
    ensures Loaded(Written(markups, serialize), MarkupDecoder(deserialize)) == markups
  {
    LoadWritten(markups, serialize, MarkupDecoder(deserialize));
    RoundTripIdentity(markups, serialize, MarkupDecoder(deserialize));
  }

  // Open tabs

  /** The open paths in tab order and the position of the active tab among
      them, as `persist_open_tabs` collects them from (id, path) pairs. */
  function OpenTabsSnapshot(tabs: seq<(nat, Option<Path>)>, activeTabId: Option<nat>): (r: (seq<Path>, Option<nat>))
    ensures r.1.Some? ==> r.1.value < |r.0|
    ensures |r.0| <= |tabs|
  {
    if tabs == [] then ([], None)
    else
      var rest := OpenTabsSnapshot(tabs[..|tabs| - 1], activeTabId);
      var t := tabs[|tabs| - 1];
      match t.1
      case None => rest
      case Some(p) => (rest.0 + [p], if activeTabId == Some(t.0) then Some(|rest.0|) else rest.1)
  }

  function PathValue(p: Path): Option<Value>
  {
    Some(Utf8.Encode(p))
  }

  /** The tree `persist_open_tabs` leaves: the paths under their indices and,
      when a tab with a path is active, its position under `active_index`. */
  function OpenTabsWritten(paths: seq<Path>, active: Option<nat>): (r: seq<Entry>)
    ensures Ascending(r)
  {
    var w := Written(paths, PathValue);
    match active
    case None => w
    case Some(i) =>
      InsertSortedAscending(w, OPEN_TABS_KEY_ACTIVE_INDEX, U64Bytes(i));
      InsertSorted(w, OPEN_TABS_KEY_ACTIVE_INDEX, U64Bytes(i))
  }

  method PersistOpenTabs(store: Tree, tabs: seq<(nat, Option<Path>)>, activeTabId: Option<nat>)
    modifies store
    ensures store.Valid()
    ensures store.entries == OpenTabsWritten(OpenTabsSnapshot(tabs, activeTabId).0, OpenTabsSnapshot(tabs, activeTabId).1)
  {
    store.Clear();
    var activeIndex: Option<nat> := None;
    var openPaths: seq<Path> := [];
    var i := 0;
    while i < |tabs|
      invariant 0 <= i <= |tabs|
      invariant (openPaths, activeIndex) == OpenTabsSnapshot(tabs[..i], activeTabId)
    {
      assert tabs[..i + 1][..i] == tabs[..i];
      var (tabId, path) := tabs[i];
      if path.Some? {
        if activeTabId == Some(tabId) {
          activeIndex := Some(|openPaths|);
        }
        openPaths := openPaths + [path.value];
      }
      i := i + 1;
    }
    assert tabs[..i] == tabs;
    PersistIndexed(store, openPaths, PathValue);
    if activeIndex.Some? {
      store.Insert(OPEN_TABS_KEY_ACTIVE_INDEX, U64Bytes(activeIndex.value));
    }
  }

  /** A stored `u64` (the active tab index, a saved page): exactly 8 bytes. */
  function DecodeU64(raw: Option<Value>): (r: Option<nat>)
    ensures r.Some? <==> raw.Some? && |raw.value| == 8
    ensures r.Some? ==> r.value == DecodeBE(raw.value) && r.value < U64_LIMIT
  {
    Pow256Values();
    match raw
    case Some(v) => if |v| == 8 then Some(DecodeBE(v)) else None
    case None => None
  }

  lemma U64RoundTrip(i: nat)
    requires i < U64_LIMIT
    ensures DecodeU64(Some(U64Bytes(i))) == Some(i)
  {
    assert DecodeBE(U64Bytes(i)) == i % U64_LIMIT;
    assert i % U64_LIMIT == i;
  }

  /** `load_open_tabs_from_store`, as a function of the tree's entries. */
  function OpenTabsLoaded(es: seq<Entry>): (seq<Path>, Option<nat>)
  {
    (Loaded(es, DecodeNonEmptyString), DecodeU64(Lookup(es, OPEN_TABS_KEY_ACTIVE_INDEX)))
  }

  method LoadOpenTabs(store: Tree) returns (paths: seq<Path>, activeIndex: Option<nat>)
    requires store.Valid()
    ensures (paths, activeIndex) == OpenTabsLoaded(store.entries)
    ensures forall p :: p in paths ==> p != []
  {
    paths := LoadIndexed(store, DecodeNonEmptyString);
    activeIndex := DecodeU64(store.Get(OPEN_TABS_KEY_ACTIVE_INDEX));
    forall p | p in paths ensures p != [] {
      var i :| 0 <= i < |paths| && paths[i] == p;
      IndexedDecoded(store.entries, DecodeNonEmptyString, i);
    }
  }

  lemma {:induction false} IndexedAppend<T>(a: seq<Entry>, b: seq<Entry>, decode: Value -> Option<T>)
    ensures Indexed(a + b, decode) == Indexed(a, decode) + Indexed(b, decode)
    decreases |b|
  {
    if b != [] {
      var ab := a + b;
      assert ab[..|ab| - 1] == a + b[..|b| - 1];
      IndexedAppend(a, b[..|b| - 1], decode);
    } else {
      assert a + b == a;
    }
  }

  /** A key that is not 4 bytes long is invisible to the index loaders. */
  lemma {:induction false} IndexedIgnoresOtherKeys<T>(es: seq<Entry>, k: Key, v: Value, decode: Value -> Option<T>)
    requires |k| != 4
    ensures Indexed(InsertSorted(es, k, v), decode) == Indexed(es, decode)
  {
    assert Indexed([(k, v)], decode) == [] by {
      assert [(k, v)][..0] == [];
    }
    if es != [] {
      var head := [es[0]];
      assert es == head + es[1..];
      IndexedAppend(head, es[1..], decode);
      if es[0].0 == k {
        assert Indexed(head, decode) == [] by { assert head[..0] == []; }
        IndexedAppend([(k, v)], es[1..], decode);
      } else if LexLess(k, es[0].0) {
        IndexedAppend([(k, v)], es, decode);
      } else {
        IndexedIgnoresOtherKeys(es[1..], k, v, decode);
        IndexedAppend(head, InsertSorted(es[1..], k, v), decode);
      }
    }
  }

  /** Reopening restores the open tabs: the same paths in the same order,
      and the active tab's position when it has a path. */
  lemma OpenTabsRoundTrip(tabs: seq<(nat, Option<Path>)>, activeTabId: Option<nat>)
    requires |tabs| <= U32_LIMIT
    requires forall i :: 0 <= i < |tabs| && tabs[i].1.Some? ==> tabs[i].1.value != []
    ensures OpenTabsLoaded(OpenTabsWritten(OpenTabsSnapshot(tabs, activeTabId).0, OpenTabsSnapshot(tabs, activeTabId).1))
            == OpenTabsSnapshot(tabs, activeTabId)
  {
    var snap := OpenTabsSnapshot(tabs, activeTabId);
    SnapshotPaths(tabs, activeTabId);
    PathsRoundTrip(snap.0);
    assert snap.1.Some? ==> snap.1.value < U64_LIMIT;
    ActiveIndexRoundTrip(snap.0, snap.1);
  }

  /** Non-empty paths written under their indices load back unchanged. */
  lemma PathsRoundTrip(paths: seq<Path>)
    requires |paths| <= U32_LIMIT
    requires forall p :: p in paths ==> p != []
    ensures Loaded(Written(paths, PathValue), DecodeNonEmptyString) == paths
  {
    forall p | p in paths ensures PathValue(p).Some? && DecodeNonEmptyString(PathValue(p).value) == Some(p) {
      NonEmptyStringRoundTrip(p);
    }
    LoadWritten(paths, PathValue, DecodeNonEmptyString);
    RoundTripIdentity(paths, PathValue, DecodeNonEmptyString);
  }

  /** Adding the active index leaves the paths as they load and stores the index. */
  lemma ActiveIndexRoundTrip(paths: seq<Path>, active: Option<nat>)
    requires |paths| <= U32_LIMIT
    requires active.Some? ==> active.value < U64_LIMIT
    ensures OpenTabsLoaded(OpenTabsWritten(paths, active)) == (Loaded(Written(paths, PathValue), DecodeNonEmptyString), active)
  {
    var w := Written(paths, PathValue);
    if active.None? {
      WrittenKeys(paths, PathValue);
      assert |OPEN_TABS_KEY_ACTIVE_INDEX| == 12;
      LookupOfOtherLength(w, OPEN_TABS_KEY_ACTIVE_INDEX);
    } else {
      ActiveIndexInserted(w, active.value);
    }
  }

  lemma LookupOfOtherLength(es: seq<Entry>, k: Key)
    requires forall i :: 0 <= i < |es| ==> |es[i].0| == 4
    requires |k| != 4
    ensures Lookup(es, k) == None
  {
  }

  lemma ActiveIndexInserted(w: seq<Entry>, i: nat)
    requires Ascending(w) && i < U64_LIMIT
    ensures OpenTabsLoaded(InsertSorted(w, OPEN_TABS_KEY_ACTIVE_INDEX, U64Bytes(i))) == (Loaded(w, DecodeNonEmptyString), Some(i))
  {
    var k := OPEN_TABS_KEY_ACTIVE_INDEX;
    var es := InsertSorted(w, k, U64Bytes(i));
    InsertSortedAscending(w, k, U64Bytes(i));
    IndexedIgnoresOtherKeys(w, k, U64Bytes(i), DecodeNonEmptyString);
    LookupInsert(w, k, U64Bytes(i), k);
    U64RoundTrip(i);
    LoadedInKeyOrder(es, DecodeNonEmptyString);
    LoadedInKeyOrder(w, DecodeNonEmptyString);
  }

  lemma {:induction false} SnapshotPaths(tabs: seq<(nat, Option<Path>)>, activeTabId: Option<nat>)
    requires forall i :: 0 <= i < |tabs| && tabs[i].1.Some? ==> tabs[i].1.value != []
    ensures forall p :: p in OpenTabsSnapshot(tabs, activeTabId).0 ==> p != []
  {
    if tabs != [] {
      SnapshotPaths(tabs[..|tabs| - 1], activeTabId);
    }
  }

  // Recent files

  /** The non-empty UTF-8 values in key order. */
  function RecentValues(es: seq<Entry>): seq<Path>
  {
    if es == [] then []
    else
      var rest := RecentValues(es[..|es| - 1]);
      match DecodeNonEmptyString(es[|es| - 1].1)
      case None => rest
      case Some(p) => rest + [p]
  }

  function Take<T>(s: seq<T>, n: nat): (r: seq<T>)
    ensures |r| == if |s| <= n then |s| else n
    ensures r == s[..|r|]
  {
    if |s| <= n then s else s[..n]
  }

  lemma {:induction false} RecentValuesAppend(a: seq<Entry>, b: seq<Entry>)
    ensures RecentValues(a + b) == RecentValues(a) + RecentValues(b)
    decreases |b|
  {
    if b != [] {
      var ab := a + b;
      assert ab[..|ab| - 1] == a + b[..|b| - 1];
      RecentValuesAppend(a, b[..|b| - 1]);
    } else {
      assert a + b == a;
    }
  }

  /** `load_recent_files_from_store`: the first 12 non-empty UTF-8 values
      in key order, whatever their keys. */
  method LoadRecentFiles(store: Tree) returns (r: seq<Path>)
    ensures r == Take(RecentValues(store.entries), MAX_RECENT_FILES)
    ensures |r| <= MAX_RECENT_FILES
  {
    r := [];
    var i := 0;
    while i < |store.entries| && |r| < MAX_RECENT_FILES
      invariant 0 <= i <= |store.entries|
      invariant r == RecentValues(store.entries[..i]) && |r| <= MAX_RECENT_FILES
    {
      assert store.entries[..i + 1][..i] == store.entries[..i];
      var path := DecodeNonEmptyString(store.entries[i].1);
      if path.Some? {
        r := r + [path.value];
      }
      i := i + 1;
    }
    assert store.entries == store.entries[..i] + store.entries[i..];
    RecentValuesAppend(store.entries[..i], store.entries[i..]);
  }

  /** `persist_recent_files`: the first 12 paths under their indices. */
  method PersistRecentFiles(store: Tree, recent: seq<Path>)
    modifies store
    ensures store.Valid()
    ensures store.entries == Written(Take(recent, MAX_RECENT_FILES), PathValue)
  {
    PersistIndexed(store, Take(recent, MAX_RECENT_FILES), PathValue);
  }

  lemma {:induction false} RecentOfWritten(paths: seq<Path>)
    requires |paths| <= U32_LIMIT
    requires forall p :: p in paths ==> p != []
    ensures RecentValues(Written(paths, PathValue)) == paths
  {
    if paths != [] {
      var n := |paths| - 1;
      WrittenPathsSnoc(paths);
      NonEmptyPrefix(paths, n);
      RecentOfWritten(paths[..n]);
      assert paths[n] in paths;
      RecentValuesStep(Written(paths[..n], PathValue), paths[..n], IndexKey(n), paths[n]);
      LastSplit(paths);
    }
  }

  lemma LastSplit<T>(s: seq<T>)
    requires s != []
    ensures s[..|s| - 1] + [s[|s| - 1]] == s
  {
  }

  lemma WrittenPathsSnoc(paths: seq<Path>)
    requires 0 < |paths| <= U32_LIMIT
    ensures Written(paths, PathValue) ==
      Written(paths[..|paths| - 1], PathValue) + [(IndexKey(|paths| - 1), Utf8.Encode(paths[|paths| - 1]))]
  {
    WrittenKeys(paths, PathValue);
  }

  lemma NonEmptyPrefix(paths: seq<Path>, n: nat)
    requires n <= |paths| && forall p :: p in paths ==> p != []
    ensures forall p :: p in paths[..n] ==> p != []
  {
    forall p | p in paths[..n] ensures p != [] { assert p in paths; }
  }

  /** A non-empty path written after the others is read back after them. */
  lemma RecentValuesStep(rest: seq<Entry>, init: seq<Path>, key: Key, x: Path)
    requires RecentValues(rest) == init && x != []
    ensures RecentValues(rest + [(key, Utf8.Encode(x))]) == init + [x]
  {
    RecentValuesSnoc(rest, (key, Utf8.Encode(x)));
    NonEmptyStringRoundTrip(x);
  }

  lemma RecentValuesSnoc(es: seq<Entry>, e: Entry)
    ensures RecentValues(es + [e]) ==
      match DecodeNonEmptyString(e.1) case None => RecentValues(es) case Some(p) => RecentValues(es) + [p]
  {
    var s := es + [e];
    assert s[..|s| - 1] == es;
  }

  /** The recent-files list survives a restart, capped at 12 entries. */
  lemma RecentFilesRoundTrip(recent: seq<Path>)
    requires forall p :: p in recent ==> p != []
    ensures Take(RecentValues(Written(Take(recent, MAX_RECENT_FILES), PathValue)), MAX_RECENT_FILES)
            == Take(recent, MAX_RECENT_FILES)
  {
    var kept := Take(recent, MAX_RECENT_FILES);
    forall p | p in kept ensures p != [] {
      var i :| 0 <= i < |kept| && kept[i] == p;
      assert recent[i] == p && recent[i] in recent;
    }
    RecentOfWritten(kept);
  }

  // Title bar and theme preferences

  /** `load_titlebar_preferences_from_store`. */
  function LoadTitlebarPreferences(store: Tree): (r: TitleBarVisibilityPreferences)
    reads store
    ensures store.Get(TITLEBAR_KEY_SHOW_NAVIGATION).None? ==> r.showNavigation == DEFAULT_TITLEBAR_PREFERENCES.showNavigation
    ensures store.Get(TITLEBAR_KEY_SHOW_ZOOM).None? ==> r.showZoom == DEFAULT_TITLEBAR_PREFERENCES.showZoom
  {
    TitleBarVisibilityPreferences(
      DecodeStoredBool(store.Get(TITLEBAR_KEY_SHOW_NAVIGATION), DEFAULT_TITLEBAR_PREFERENCES.showNavigation),
      DecodeStoredBool(store.Get(TITLEBAR_KEY_SHOW_ZOOM), DEFAULT_TITLEBAR_PREFERENCES.showZoom))
  }

  /** `persist_titlebar_preferences`: the saved preferences load back. */
  method PersistTitlebarPreferences(store: Tree, prefs: TitleBarVisibilityPreferences)
    requires store.Valid()
    modifies store
    ensures store.Valid()
    ensures LoadTitlebarPreferences(store) == prefs
    ensures forall k :: k != TITLEBAR_KEY_SHOW_NAVIGATION && k != TITLEBAR_KEY_SHOW_ZOOM ==> store.Get(k) == old(store.Get(k))
  {
    assert |TITLEBAR_KEY_SHOW_NAVIGATION| == 15 && |TITLEBAR_KEY_SHOW_ZOOM| == 9;
    store.Insert(TITLEBAR_KEY_SHOW_NAVIGATION, EncodeBool(prefs.showNavigation));
    ghost var navigation := store.Get(TITLEBAR_KEY_SHOW_NAVIGATION);
    store.Insert(TITLEBAR_KEY_SHOW_ZOOM, EncodeBool(prefs.showZoom));
    assert store.Get(TITLEBAR_KEY_SHOW_NAVIGATION) == navigation;
    StoredBoolRoundTrip(prefs.showNavigation, DEFAULT_TITLEBAR_PREFERENCES.showNavigation);
    StoredBoolRoundTrip(prefs.showZoom, DEFAULT_TITLEBAR_PREFERENCES.showZoom);
  }

  /** `load_theme_preferences_from_store`: mode, light theme name, dark theme name. */
  function LoadThemePreferences(store: Tree, defaultMode: ThemeMode): (r: (ThemeMode, Option<string>, Option<string>))
    reads store
    ensures store.Get(THEME_KEY_MODE).None? ==> r.0 == defaultMode
    ensures r.1.Some? ==> r.1.value != []
    ensures r.2.Some? ==> r.2.value != []
  {
    (DecodeThemeMode(store.Get(THEME_KEY_MODE), defaultMode),
     DecodeStoredString(store.Get(THEME_KEY_LIGHT_NAME)),
     DecodeStoredString(store.Get(THEME_KEY_DARK_NAME)))
  }

  /** A theme name as it loads back: an empty name reads as none. */
  function NonEmptyName(name: Option<string>): (r: Option<string>)
    ensures r.Some? <==> name.Some? && name.value != []
    ensures r.Some? ==> r == name
  {
    if name == Some([]) then None else name
  }

  /** One theme name: inserted when present, removed when not. */
  method PersistThemeName(store: Tree, key: Key, name: Option<string>)
    requires store.Valid()
    modifies store
    ensures store.Valid()
    ensures DecodeStoredString(store.Get(key)) == NonEmptyName(name)
    ensures forall k :: k != key ==> store.Get(k) == old(store.Get(k))
  {
    if name.Some? {
      store.Insert(key, Utf8.Encode(name.value));
      Utf8.DecodeEncode(name.value);
    } else {
      store.Remove(key);
    }
  }

  /** `persist_theme_preferences`: the mode and names load back, whatever the default. */
  method PersistThemePreferences(store: Tree, mode: ThemeMode, lightName: Option<string>, darkName: Option<string>)
    requires store.Valid()
    modifies store
    ensures store.Valid()
    ensures forall d :: LoadThemePreferences(store, d) == (mode, NonEmptyName(lightName), NonEmptyName(darkName))
    ensures forall k :: k != THEME_KEY_MODE && k != THEME_KEY_LIGHT_NAME && k != THEME_KEY_DARK_NAME ==>
      store.Get(k) == old(store.Get(k))
  {
    assert |THEME_KEY_MODE| == 10 && |THEME_KEY_LIGHT_NAME| == 16 && |THEME_KEY_DARK_NAME| == 15;
    store.Insert(THEME_KEY_MODE, EncodeThemeMode(mode));
    ghost var modeValue := store.Get(THEME_KEY_MODE);
    PersistThemeName(store, THEME_KEY_LIGHT_NAME, lightName);
    ghost var lightValue := store.Get(THEME_KEY_LIGHT_NAME);
    PersistThemeName(store, THEME_KEY_DARK_NAME, darkName);
    assert store.Get(THEME_KEY_MODE) == modeValue == Some(EncodeThemeMode(mode));
    assert store.Get(THEME_KEY_LIGHT_NAME) == lightValue;
    forall d ensures LoadThemePreferences(store, d) == (mode, NonEmptyName(lightName), NonEmptyName(darkName)) {
      ThemeModeRoundTrip(mode, d);
    }
  }

  // Saved page positions

  /** `load_saved_file_position`: an 8-byte big-endian page index. */
  function LoadSavedFilePosition(store: Tree, key: Key): (r: Option<nat>)
    reads store
    ensures r.Some? <==> store.Get(key).Some? && |store.Get(key).value| == 8
    ensures r.Some? ==> r.value == DecodeBE(store.Get(key).value)
  {
    DecodeU64(store.Get(key))
  }

  /** `save_file_position`: the saved page loads back. */
  method SaveFilePosition(store: Tree, key: Key, page: nat)
    requires store.Valid()
    modifies store
    ensures store.Valid()
    ensures LoadSavedFilePosition(store, key) == Some(page % U64_LIMIT)
    ensures forall k :: k != key ==> store.Get(k) == old(store.Get(k))
  {
    store.Insert(key, U64Bytes(page));
  }
}
