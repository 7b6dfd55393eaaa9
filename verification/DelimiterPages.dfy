/** One page of a delimiter listing: what is validated, what S3 itself would send, what is returned. */
module DelimiterPages {
  import opened Foundation
  import opened Prefixes

  const DEFAULT_MAX_KEYS: nat := 1000
  const MAX_TOKEN: nat := 8192
  const U32_MAX: nat := 0xFFFF_FFFF

  type u32 = n: nat | n <= U32_MAX

  /** What was asked for; the caller's prefix is empty when none was given. */
  datatype Query = Query(root: Option<bytes>, callerPrefix: bytes, maxKeys: Option<u32>)

  /** A response page; a row may come without its key. */
  datatype Page = Page(
    objectKeys: seq<Option<bytes>>,
    commonPrefixes: seq<Option<bytes>>,
    isTruncated: bool,
    token: Option<bytes>)

  datatype PageError =
    | InconsistentPair | InvalidToken | OversizedPage | TooManyRows | MissingKey | MissingPrefix
    | OutsideRoot | ObjectOutsidePrefix | EmptyCommonPrefix | PrefixOutsidePrefix | SamePathTwice

  function PageBound(maxKeys: Option<u32>): nat {
    if maxKeys.Some? && maxKeys.value != 0 then maxKeys.value else DEFAULT_MAX_KEYS
  }

  // ---------------------------------------------------------------- what a good page is

  predicate TokenPairHolds(page: Page) {
    page.isTruncated == page.token.Some? && (page.token.Some? ==> 1 <= |page.token.value| <= 8192)
  }

  /** A page may have as many rows as were asked for; 1000 when none, or no number, was. */
  predicate WithinRows(maxKeys: Option<u32>, rows: nat) {
    if maxKeys == None || maxKeys == Some(0) then rows <= 1000 else rows <= maxKeys.value
  }

  /** The row has a key, and the key lies under the root and projects under the caller's prefix. */
  predicate RowInScope(q: Query, row: Option<bytes>) {
    && row.Some?
    && StripRootPrefix(q.root, row.value).Ok?
    && q.callerPrefix <= StripRootPrefix(q.root, row.value).value
  }

  function Projection(q: Query, row: Option<bytes>): bytes
    requires RowInScope(q, row)
  {
    StripRootPrefix(q.root, row.value).value
  }

  predicate RowsInScope(q: Query, rows: seq<Option<bytes>>) {
    forall i | 0 <= i < |rows| :: RowInScope(q, rows[i])
  }

  predicate Acceptable(q: Query, page: Page) {
    TokenPairHolds(page) && WithinRows(q.maxKeys, |page.objectKeys| + |page.commonPrefixes|) && RowsFit(q, page)
  }

  /** Every row is in scope, and no common prefix is empty or the path of an object. */
  predicate RowsFit(q: Query, page: Page) {
    && RowsInScope(q, page.objectKeys)
    && RowsInScope(q, page.commonPrefixes)
    && (forall j | 0 <= j < |page.commonPrefixes| :: Projection(q, page.commonPrefixes[j]) != [])
    && (forall i, j | 0 <= i < |page.objectKeys| && 0 <= j < |page.commonPrefixes| ::
          Projection(q, page.objectKeys[i]) != Projection(q, page.commonPrefixes[j]))
  }

  /** The complaint an object row draws by itself. */
  function ObjectComplaint(q: Query, row: Option<bytes>): (e: Option<PageError>)
    ensures e.None? <==> RowInScope(q, row)
  {
    if row.None? then Some(MissingKey)
    else if StripRootPrefix(q.root, row.value).Err? then Some(OutsideRoot)
    else if !(q.callerPrefix <= StripRootPrefix(q.root, row.value).value) then Some(ObjectOutsidePrefix)
    else None
  }

  /** The complaint a common prefix draws beside the projected objects. */
  function PrefixComplaint(q: Query, row: Option<bytes>, objects: set<bytes>): (e: Option<PageError>)
    ensures e.None? <==>
      RowInScope(q, row) && Projection(q, row) != [] && Projection(q, row) !in objects
  {
    if row.None? then Some(MissingPrefix)
    else if StripRootPrefix(q.root, row.value).Err? then Some(OutsideRoot)
    else
      var projected := StripRootPrefix(q.root, row.value).value;
      if projected == [] then Some(EmptyCommonPrefix)
      else if !(q.callerPrefix <= projected) then Some(PrefixOutsidePrefix)
      else if projected in objects then Some(SamePathTwice)
      else None
  }

  function Projections(q: Query, rows: seq<Option<bytes>>): set<bytes>
    requires RowsInScope(q, rows)
  {
    set i | 0 <= i < |rows| :: Projection(q, rows[i])
  }

  /** The page fails at object row `i` with `e`, everything before it being fine. */
  ghost predicate FailsAtObject(q: Query, page: Page, i: nat, e: PageError) {
    && i < |page.objectKeys|
    && WithinRows(q.maxKeys, i)
    && RowsInScope(q, page.objectKeys[..i])
    && if !WithinRows(q.maxKeys, i + 1) then e == TooManyRows else ObjectComplaint(q, page.objectKeys[i]) == Some(e)
  }

  ghost predicate FailsAtPrefix(q: Query, page: Page, j: nat, e: PageError) {
    && j < |page.commonPrefixes|
    && WithinRows(q.maxKeys, |page.objectKeys| + j)
    && RowsInScope(q, page.objectKeys)
    && (forall k | 0 <= k < j :: PrefixComplaint(q, page.commonPrefixes[k], Projections(q, page.objectKeys)).None?)
    && if !WithinRows(q.maxKeys, |page.objectKeys| + j + 1) then e == TooManyRows
       else PrefixComplaint(q, page.commonPrefixes[j], Projections(q, page.objectKeys)) == Some(e)
  }

  // ---------------------------------------------------------------- validation

  /** Accepts exactly the acceptable pages; a refusal names the first failing row, and never overflow. */
  method ValidateDelimiterListPage(q: Query, page: Page) returns (r: Result<(), PageError>)
    ensures r.Ok? <==> Acceptable(q, page)
    ensures r == Err(InconsistentPair) <==> page.isTruncated != page.token.Some?
    ensures r == Err(InvalidToken) <==> page.isTruncated == page.token.Some? && !TokenPairHolds(page)
    ensures r.Err? && TokenPairHolds(page) ==>
      (exists i :: FailsAtObject(q, page, i, r.error)) || (exists j :: FailsAtPrefix(q, page, j, r.error))
    ensures (TokenPairHolds(page) && RowsFit(q, page)
             && !WithinRows(q.maxKeys, |page.objectKeys| + |page.commonPrefixes|)) ==>
      r == Err(TooManyRows)
    ensures r != Err(OversizedPage)
  {
    if page.isTruncated != page.token.Some? { return Err(InconsistentPair); }
    if page.token.Some? && (page.token.value == [] || |page.token.value| > MAX_TOKEN) { return Err(InvalidToken); }
    hide StripRootPrefix;
    var bound := PageBound(q.maxKeys);
    var rowCount: u64 := 0;
    var projectedObjects: set<bytes> := {};
    for i := 0 to |page.objectKeys|
      invariant rowCount == i <= bound
      invariant RowsInScope(q, page.objectKeys[..i])
      invariant projectedObjects == Projections(q, page.objectKeys[..i])
    {
      assert page.objectKeys[..i + 1] == page.objectKeys[..i] + [page.objectKeys[i]];
      if rowCount == U64_MAX { return Err(OversizedPage); }
      rowCount := rowCount + 1;
      var row := page.objectKeys[i];
      var failure := if rowCount > bound then Some(TooManyRows) else ObjectComplaint(q, row);
      if failure.Some? {
        assert FailsAtObject(q, page, i, failure.value);
        return Err(failure.value);
      }
      projectedObjects := projectedObjects + {StripRootPrefix(q.root, row.value).value};
      ProjectionsGrow(q, page.objectKeys[..i], row);
    }
    assert page.objectKeys[..|page.objectKeys|] == page.objectKeys;
    for j := 0 to |page.commonPrefixes|
      invariant rowCount == |page.objectKeys| + j <= bound
      invariant forall k | 0 <= k < j :: PrefixComplaint(q, page.commonPrefixes[k], projectedObjects).None?
    {
      if rowCount == U64_MAX { return Err(OversizedPage); }
      rowCount := rowCount + 1;
      var failure :=
        if rowCount > bound then Some(TooManyRows)
        else PrefixComplaint(q, page.commonPrefixes[j], projectedObjects);
      if failure.Some? {
        assert FailsAtPrefix(q, page, j, failure.value);
        return Err(failure.value);
      }
    }
    return Ok(());
  }

  lemma ProjectionsGrow(q: Query, rows: seq<Option<bytes>>, row: Option<bytes>)
    requires RowsInScope(q, rows) && RowInScope(q, row)
    ensures RowsInScope(q, rows + [row])
    ensures Projections(q, rows + [row]) == Projections(q, rows) + {Projection(q, row)}
  {
    hide StripRootPrefix;
    var all := rows + [row];
    forall i | 0 <= i < |rows| ensures all[i] == rows[i] {}
    assert all[|rows|] == row;
  }

  // ---------------------------------------------------------------- what S3 sends

  /**
   Where S3 groups a key listed under `prefix`: at the end of the first delimiter after it.
   A key without one is listed as an object.
   */
  function GroupOf(key: bytes, prefix: bytes, delimiter: bytes): Option<bytes>
    requires prefix <= key
  {
    var at := Find(delimiter, key, |prefix|);
    if at.Some? then Some(key[..at.value + |delimiter|]) else None
  }

  predicate ListedObject(bucket: set<bytes>, prefix: bytes, delimiter: bytes, row: Option<bytes>) {
    row.Some? && row.value in bucket && prefix <= row.value && GroupOf(row.value, prefix, delimiter).None?
  }

  predicate ListedGroup(bucket: set<bytes>, prefix: bytes, delimiter: bytes, row: Option<bytes>) {
    row.Some? && exists key <- bucket :: prefix <= key && GroupOf(key, prefix, delimiter) == row
  }

  /** The prefix a listing goes by. */
  function ResolvedPrefix(q: Query): bytes
    requires ResolveListPrefix(q.root, Some(q.callerPrefix)).Ok?
  {
    var resolved := ResolveListPrefix(q.root, Some(q.callerPrefix)).value;
    if resolved.Some? then resolved.value else []
  }

  /** Rows of S3's listing under the resolved prefix. */
  predicate NativeRows(q: Query, bucket: set<bytes>, delimiter: bytes, page: Page)
    requires ResolveListPrefix(q.root, Some(q.callerPrefix)).Ok?
  {
    var prefix := ResolvedPrefix(q);
    && (forall i | 0 <= i < |page.objectKeys| :: ListedObject(bucket, prefix, delimiter, page.objectKeys[i]))
    && (forall j | 0 <= j < |page.commonPrefixes| :: ListedGroup(bucket, prefix, delimiter, page.commonPrefixes[j]))
  }

  /** A page S3 may send: any rows of the listing, no more than were asked for, and a consistent token pair. */
  predicate NativePage(q: Query, bucket: set<bytes>, delimiter: bytes, page: Page)
    requires ResolveListPrefix(q.root, Some(q.callerPrefix)).Ok?
  {
    && TokenPairHolds(page)
    && WithinRows(q.maxKeys, |page.objectKeys| + |page.commonPrefixes|)
    && NativeRows(q, bucket, delimiter, page)
  }

  /** A group reaches past the prefix, by at least the delimiter, and contains it there. */
  lemma GroupExtendsPrefix(key: bytes, prefix: bytes, delimiter: bytes)
    requires prefix <= key && delimiter != [] && GroupOf(key, prefix, delimiter).Some?
    ensures var group := GroupOf(key, prefix, delimiter).value;
      prefix <= group && |prefix| < |group| && GroupOf(group, prefix, delimiter) == Some(group)
  {
    var at := Find(delimiter, key, |prefix|).value;
    var group := key[..at + |delimiter|];
    assert group[..|prefix|] == prefix;
    assert group[at..at + |delimiter|] == delimiter;
    assert OccursAt(delimiter, group, at);
    forall i: nat | |prefix| <= i && OccursAt(delimiter, group, i) ensures at <= i {
      assert key[i..i + |delimiter|] == group[i..i + |delimiter|];
      assert OccursAt(delimiter, key, i);
    }
    assert group[..at + |delimiter|] == group;
  }

  lemma NativeRowInScope(q: Query, key: bytes)
    requires ResolveListPrefix(q.root, Some(q.callerPrefix)).Ok?
    requires
      var resolved := ResolveListPrefix(q.root, Some(q.callerPrefix)).value;
      resolved.Some? ==> resolved.value <= key
    ensures RowInScope(q, Some(key))
    ensures var resolved := ResolveListPrefix(q.root, Some(q.callerPrefix)).value;
      |key| - (if resolved.Some? then |resolved.value| else 0) == |Projection(q, Some(key))| - |q.callerPrefix|
  {
    ResolvedPrefixMatches(q.root, Some(q.callerPrefix), key);
  }

  /** Two rows in scope project to the same path only if they are the same row. */
  lemma ProjectionIsInjective(q: Query, a: Option<bytes>, b: Option<bytes>)
    requires RowInScope(q, a) && RowInScope(q, b) && Projection(q, a) == Projection(q, b)
    ensures a == b
  {
    var boundary := if ListRootBoundary(q.root).Some? then ListRootBoundary(q.root).value else [];
    assert a.value == boundary + Projection(q, a);
    assert b.value == boundary + Projection(q, b);
  }

  /** Rows of S3's listing are in scope, and tell objects and common prefixes apart. */
  lemma NativeRowsFit(q: Query, bucket: set<bytes>, delimiter: bytes, page: Page)
    requires delimiter != [] && ResolveListPrefix(q.root, Some(q.callerPrefix)).Ok?
    requires NativeRows(q, bucket, delimiter, page)
    ensures RowsFit(q, page)
  {
    hide StripRootPrefix, ResolveListPrefix, Find;
    var prefix := ResolvedPrefix(q);
    forall i | 0 <= i < |page.objectKeys| ensures RowInScope(q, page.objectKeys[i]) {
      NativeRowInScope(q, page.objectKeys[i].value);
    }
    forall j | 0 <= j < |page.commonPrefixes|
      ensures RowInScope(q, page.commonPrefixes[j]) && Projection(q, page.commonPrefixes[j]) != []
      ensures prefix <= page.commonPrefixes[j].value
      ensures GroupOf(page.commonPrefixes[j].value, prefix, delimiter).Some?
    {
      assert ListedGroup(bucket, prefix, delimiter, page.commonPrefixes[j]);
      var key :| key in bucket && prefix <= key && GroupOf(key, prefix, delimiter) == page.commonPrefixes[j];
      GroupExtendsPrefix(key, prefix, delimiter);
      NativeRowInScope(q, page.commonPrefixes[j].value);
    }
    forall i, j | 0 <= i < |page.objectKeys| && 0 <= j < |page.commonPrefixes|
      ensures Projection(q, page.objectKeys[i]) != Projection(q, page.commonPrefixes[j])
    {
      if Projection(q, page.objectKeys[i]) == Projection(q, page.commonPrefixes[j]) {
        ProjectionIsInjective(q, page.objectKeys[i], page.commonPrefixes[j]);
      }
    }
  }

  /** Every page S3 may send is accepted; the same rows, one more than were asked for, are not. */
  lemma NativePageAccepted(q: Query, bucket: set<bytes>, delimiter: bytes, page: Page)
    requires delimiter != [] && ResolveListPrefix(q.root, Some(q.callerPrefix)).Ok?
    requires TokenPairHolds(page) && NativeRows(q, bucket, delimiter, page)
    ensures NativePage(q, bucket, delimiter, page) <==> Acceptable(q, page)
    ensures forall k: nat | 0 < k && q.maxKeys == Some(k) ::
      Acceptable(q, page) <==> |page.objectKeys| + |page.commonPrefixes| <= k
  {
    NativeRowsFit(q, bucket, delimiter, page);
  }

  // ---------------------------------------------------------------- the returned listing

  datatype Listing = Listing(
    objects: seq<bytes>, commonPrefixes: seq<bytes>, token: Option<bytes>, isTruncated: bool)

  /** Row `i` of the listing is row `i` of the page, with exactly the root boundary taken away. */
  predicate ProjectsRows(q: Query, rows: seq<Option<bytes>>, paths: seq<bytes>) {
    var boundary := if ListRootBoundary(q.root).Some? then ListRootBoundary(q.root).value else [];
    && |paths| == |rows|
    && forall i | 0 <= i < |rows| :: rows[i] == Some(boundary + paths[i]) && q.callerPrefix <= paths[i]
  }

  method ProjectRows(q: Query, rows: seq<Option<bytes>>) returns (paths: seq<bytes>)
    requires RowsInScope(q, rows)
    ensures ProjectsRows(q, rows, paths)
  {
    paths := [];
    for i := 0 to |rows|
      invariant ProjectsRows(q, rows[..i], paths)
    {
      assert rows[..i + 1] == rows[..i] + [rows[i]];
      var path := StripRootPrefix(q.root, rows[i].value).value;
      ghost var boundary := if ListRootBoundary(q.root).Some? then ListRootBoundary(q.root).value else [];
      assert rows[i].value == boundary + path;
      paths := paths + [path];
    }
    assert rows[..|rows|] == rows;
  }

  /** Both of the page's rows are projected in order and stay apart; validated rows always project. */
  method ListDelimitedPage(q: Query, page: Page) returns (r: Result<Listing, PageError>)
    ensures r.Ok? <==> Acceptable(q, page)
    ensures r.Ok? ==>
      && ProjectsRows(q, page.objectKeys, r.value.objects)
      && ProjectsRows(q, page.commonPrefixes, r.value.commonPrefixes)
      && (forall path <- r.value.objects :: path !in r.value.commonPrefixes)
      && [] !in r.value.commonPrefixes
      && r.value.token == page.token && r.value.isTruncated == page.token.Some?
  {
    hide StripRootPrefix;
    var checked := ValidateDelimiterListPage(q, page);
    if checked.Err? { return Err(checked.error); }
    var objects := ProjectRows(q, page.objectKeys);
    var prefixes := ProjectRows(q, page.commonPrefixes);
    r := Ok(Listing(objects, prefixes, page.token, page.isTruncated));
    forall i | 0 <= i < |page.objectKeys| ensures objects[i] == Projection(q, page.objectKeys[i]) {
      ProjectsOneWay(q, page.objectKeys[i], objects[i]);
    }
    forall j | 0 <= j < |page.commonPrefixes| ensures prefixes[j] == Projection(q, page.commonPrefixes[j]) {
      ProjectsOneWay(q, page.commonPrefixes[j], prefixes[j]);
    }
  }

  lemma ProjectsOneWay(q: Query, row: Option<bytes>, path: bytes)
    requires RowInScope(q, row)
    requires row == Some((if ListRootBoundary(q.root).Some? then ListRootBoundary(q.root).value else []) + path)
    ensures path == Projection(q, row)
  {
  }
}
