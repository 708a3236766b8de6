/** The persisted memory of past sessions (src/ai/memory.rs): a buffer of counted tables, written in whatever order
    the hash maps are walked, and read back by a cursor that never passes the end.

    A table row is a list of cells; the rows of a hash map are its key cells followed by its value cells. Strings are
    their UTF-8 bytes. */
module MemoryImage {
  import opened Bytes
  import opened Utf8

  const MAX_SESSIONS: nat := 500
  const MAX_FILES: nat := 100
  const MAX_ROWS: nat := 10_000
  const MAX_PAIRS: nat := 50_000
  const MAX_STRING: nat := 255

  datatype Kind = KWide | KNarrow | KText

  datatype Cell = Wide(w: u64) | Narrow(n: u32) | Text(s: Utf8) {
    function Kind(): Kind {
      match this
      case Wide(_) => KWide
      case Narrow(_) => KNarrow
      case Text(_) => KText
    }
  }

  type Row = seq<Cell>
  type Table = map<Row, Row>

  function SchemaOf(row: Row): (s: seq<Kind>)
    ensures |s| == |row|
  {
    if row == [] then [] else [row[0].Kind()] + SchemaOf(row[1..])
  }

  ghost predicate AllOf(rows: seq<Row>, schema: seq<Kind>) {
    forall i :: 0 <= i < |rows| ==> SchemaOf(rows[i]) == schema
  }

  lemma AllOfPart(rows: seq<Row>, schema: seq<Kind>, i: nat, j: nat)
    requires AllOf(rows, schema) && i <= j <= |rows|
    ensures AllOf(rows[i..j], schema)
  {
  }

  lemma FirstOf(rows: seq<Row>, schema: seq<Kind>)
    requires AllOf(rows, schema) && rows != []
    ensures SchemaOf(rows[0]) == schema
  {
  }

  function Repeat(k: Kind, n: nat): seq<Kind> {
    seq(n, _ => k)
  }

  const NUMBERS: seq<Kind> := [KWide, KWide, KWide, KWide, KWide]
  const FILE: seq<Kind> := [KWide, KText]
  /** Inode, counts by hour, counts by day, total. */
  const TEMPORAL: seq<Kind> := [KWide] + Repeat(KNarrow, 24 + 7 + 1)
  /** Inode, current days, longest days, last day touched. */
  const STREAK: seq<Kind> := [KWide, KNarrow, KNarrow, KWide]
  /** Two inodes, how often they met. */
  const PAIR: seq<Kind> := [KWide, KWide, KNarrow]
  /** Inode, counts of the last fourteen days. */
  const DAILY: seq<Kind> := [KWide] + Repeat(KNarrow, 14)

  datatype Session = Session(id: u64, startTs: u64, endTs: u64, totalWrites: u64, totalReads: u64,
                             files: seq<Row>, peakFiles: nat, focus: Option<Utf8>)

  /** The engine without the session in progress, which starts afresh at every mount. */
  datatype Memory = Memory(totalSessions: u64, sessions: seq<Session>, temporal: Table, streaks: Table, pairs: Table,
                           lastDay: u64, daily: Table, names: Table)

  /** "VEXMEM01". */
  const MAGIC: seq<byte> := [0x56, 0x45, 0x58, 0x4D, 0x45, 0x4D, 0x30, 0x31]

  // ----- Writing -----

  function Clip(s: Utf8): (r: Utf8)
    ensures |r| <= MAX_STRING && r <= s
  {
    s[..Min(|s|, MAX_STRING)]
  }

  function EncCell(c: Cell): seq<byte> {
    match c
    case Wide(w) => U64ToLe(w)
    case Narrow(n) => U32ToLe(n)
    case Text(s) => [|Clip(s)| as byte] + Clip(s)
  }

  function EncRow(row: Row): seq<byte> {
    if row == [] then [] else EncCell(row[0]) + EncRow(row[1..])
  }

  function EncRows(rows: seq<Row>): seq<byte> {
    if rows == [] then [] else EncRow(rows[0]) + EncRows(rows[1..])
  }

  function EncTable(rows: seq<Row>): seq<byte>
    requires |rows| <= MAX_PAIRS
  {
    U32ToLe(|rows|) + EncRows(rows)
  }

  function Numbers(s: Session): Row {
    [Wide(s.id), Wide(s.startTs), Wide(s.endTs), Wide(s.totalWrites), Wide(s.totalReads)]
  }

  function FocusText(s: Session): Cell {
    Text(if s.focus.Some? then s.focus.value else [])
  }

  function EncSession(s: Session): seq<byte> {
    EncRow(Numbers(s)) + (EncTable(s.files[..Min(|s.files|, MAX_FILES)]) + EncCell(FocusText(s)))
  }

  function EncSessions(ss: seq<Session>): seq<byte> {
    if ss == [] then [] else EncSession(ss[0]) + EncSessions(ss[1..])
  }

  // ----- The documented layout -----

  /** Numbers are little-endian; a string is its length in one byte and then at most 255 of its bytes. */
  lemma CellLayout(c: Cell)
    ensures match c
            case Wide(w) => EncCell(c) == ToLe(w, 8)
            case Narrow(n) => EncCell(c) == ToLe(n, 4)
            case Text(s) => |EncCell(c)| == 1 + Min(|s|, 255) && EncCell(c)[0] as int == Min(|s|, 255)
                            && EncCell(c)[1..] == s[..Min(|s|, 255)]
  {
    hide ToLe;
  }

  /** Cell `i` of a row stands behind the cells before it. */
  lemma {:induction false} RowLayout(row: Row, i: nat)
    requires i < |row|
    ensures At(EncRow(row), |EncRow(row[..i])|, EncCell(row[i]))
  {
    hide EncCell;
    if i > 0 {
      RowLayout(row[1..], i - 1);
      assert row[..i][1..] == row[1..][..i - 1];
      AtBehind(EncCell(row[0]), EncRow(row[1..]), |EncRow(row[1..][..i - 1])|, EncCell(row[i]));
    } else {
      AtFront(EncCell(row[0]), EncRow(row[1..]));
    }
  }

  lemma {:induction false} RowsLayout(rows: seq<Row>, i: nat)
    requires i < |rows|
    ensures At(EncRows(rows), |EncRows(rows[..i])|, EncRow(rows[i]))
  {
    hide EncRow;
    if i > 0 {
      RowsLayout(rows[1..], i - 1);
      assert rows[..i][1..] == rows[1..][..i - 1];
      AtBehind(EncRow(rows[0]), EncRows(rows[1..]), |EncRows(rows[1..][..i - 1])|, EncRow(rows[i]));
    } else {
      AtFront(EncRow(rows[0]), EncRows(rows[1..]));
    }
  }

  /** A table is the number of its rows and then the rows, one behind the other. */
  lemma TableLayout(rows: seq<Row>, i: nat)
    requires |rows| <= MAX_PAIRS && i < |rows|
    ensures EncTable(rows)[0..4] == ToLe(|rows|, 4)
    ensures At(EncTable(rows), 4 + |EncRows(rows[..i])|, EncRow(rows[i]))
  {
    hide EncRow, EncRows, ToLe;
    RowsLayout(rows, i);
    AtBehind(U32ToLe(|rows|), EncRows(rows), |EncRows(rows[..i])|, EncRow(rows[i]));
  }

  /** A session is its id, start, end, writes and reads, then the table of its first 100 files, then the focus. */
  lemma SessionLayout(s: Session)
    ensures var b, files := EncSession(s), EncTable(s.files[..Min(|s.files|, 100)]);
            && |b| >= 44 && b[0..8] == ToLe(s.id, 8) && b[8..16] == ToLe(s.startTs, 8) && b[16..24] == ToLe(s.endTs, 8)
            && b[24..32] == ToLe(s.totalWrites, 8) && b[32..40] == ToLe(s.totalReads, 8)
            && b[40..44] == ToLe(Min(|s.files|, 100), 4)
            && At(b, 40, files) && At(b, 40 + |files|, EncCell(Text(if s.focus.Some? then s.focus.value else [])))
            && |b| == 40 + |files| + |EncCell(Text(if s.focus.Some? then s.focus.value else []))|
  {
    NumbersLayout(Numbers(s), s);
    hide ToLe, EncRow, EncRows, EncCell, Numbers;
    var n, files := EncRow(Numbers(s)), EncTable(s.files[..Min(|s.files|, MAX_FILES)]);
    BothParts(n, files, EncCell(FocusText(s)));
    assert files[0..4] == U32ToLe(Min(|s.files|, 100));
  }

  lemma BothParts(n: seq<byte>, files: seq<byte>, rest: seq<byte>)
    requires |n| == 40 && |files| >= 4
    ensures var b := n + (files + rest);
            && b[0..8] == n[0..8] && b[8..16] == n[8..16] && b[16..24] == n[16..24] && b[24..32] == n[24..32]
            && b[32..40] == n[32..40] && b[40..44] == files[0..4]
            && At(b, 40, files) && At(b, 40 + |files|, rest)
  {
  }

  lemma NumbersLayout(row: Row, s: Session)
    requires row == Numbers(s)
    ensures var b := EncRow(row);
            && |b| == 40 && b[0..8] == ToLe(s.id, 8) && b[8..16] == ToLe(s.startTs, 8) && b[16..24] == ToLe(s.endTs, 8)
            && b[24..32] == ToLe(s.totalWrites, 8) && b[32..40] == ToLe(s.totalReads, 8)
  {
    hide ToLe;
    assert row[1..][1..] == row[2..] && row[2..][1..] == row[3..] && row[3..][1..] == row[4..] && row[4..][1..] == [];
    assert EncRow(row[4..]) == EncCell(row[4]) + [];
    assert EncRow(row[3..]) == EncCell(row[3]) + EncRow(row[4..]);
    assert EncRow(row[2..]) == EncCell(row[2]) + EncRow(row[3..]);
    assert EncRow(row[1..]) == EncCell(row[1]) + EncRow(row[2..]);
    FiveNumbers(EncCell(row[0]), EncCell(row[1]), EncCell(row[2]), EncCell(row[3]), EncCell(row[4]));
  }

  lemma FiveNumbers(a: seq<byte>, b: seq<byte>, c: seq<byte>, d: seq<byte>, e: seq<byte>)
    requires |a| == |b| == |c| == |d| == |e| == 8
    ensures var s := a + (b + (c + (d + (e + []))));
            |s| == 40 && s[0..8] == a && s[8..16] == b && s[16..24] == c && s[24..32] == d && s[32..40] == e
  {
  }

  /** The rows of the tables: hours, weekdays and a count; current and longest streak and the last day; two inodes and
      a count; fourteen days; a name. */
  lemma RowShapes(row: Row)
    ensures SchemaOf(row) == TEMPORAL <==>
              |row| == 33 && row[0].Wide? && forall i :: 1 <= i < 33 ==> row[i].Narrow?
    ensures SchemaOf(row) == STREAK <==>
              |row| == 4 && row[0].Wide? && row[1].Narrow? && row[2].Narrow? && row[3].Wide?
    ensures SchemaOf(row) == PAIR <==> |row| == 3 && row[0].Wide? && row[1].Wide? && row[2].Narrow?
    ensures SchemaOf(row) == DAILY <==>
              |row| == 15 && row[0].Wide? && forall i :: 1 <= i < 15 ==> row[i].Narrow?
    ensures SchemaOf(row) == FILE <==> |row| == 2 && row[0].Wide? && row[1].Text?
  {
    hide SchemaOf;
    forall i | 0 <= i < |row| ensures SchemaOf(row)[i] == row[i].Kind() {
      SchemaAt(row, i);
    }
  }

  lemma AtFront(a: seq<byte>, b: seq<byte>)
    ensures At(a + b, 0, a)
  {
  }

  lemma AtBehind(a: seq<byte>, b: seq<byte>, p: nat, x: seq<byte>)
    requires At(b, p, x)
    ensures At(a + b, |a| + p, x)
  {
    assert (a + b)[|a| + p..|a| + p + |x|] == b[p..p + |x|];
  }

  /** The bytes stand at `p`. */
  ghost predicate At(data: seq<byte>, p: nat, b: seq<byte>) {
    p + |b| <= |data| && data[p..p + |b|] == b
  }

  // ----- Reading -----

  datatype Parsed<+T> = Bad | Good(value: T, next: nat)

  /** The cell that starts at `p`, and where it ends. */
  function GetCell(kind: Kind, data: seq<byte>, p: nat): (r: Parsed<Cell>)
    ensures r.Good? ==> p < r.next <= |data| && r.value.Kind() == kind
  {
    match kind
    case KWide => if p + 8 > |data| then Bad else Good(Wide(LeToU64(data[p..p + 8])), p + 8)
    case KNarrow => if p + 4 > |data| then Bad else Good(Narrow(LeToU32(data[p..p + 4])), p + 4)
    case KText =>
      if p >= |data| then Bad
      else
        var len := data[p] as nat;
        if p + 1 + len > |data| then Bad else Good(Text(Lossy(data[p + 1..p + 1 + len])), p + 1 + len)
  }

  function GetRow(schema: seq<Kind>, data: seq<byte>, p: nat): (r: Parsed<Row>)
    requires p <= |data|
    ensures r.Good? ==> p <= r.next <= |data| && |r.value| == |schema|
  {
    if schema == [] then Good([], p)
    else
      match GetCell(schema[0], data, p)
      case Bad => Bad
      case Good(c, q) => Before([c], GetRow(schema[1..], data, q))
  }

  function GetRows(schema: seq<Kind>, n: nat, data: seq<byte>, p: nat): (r: Parsed<seq<Row>>)
    requires p <= |data|
    ensures r.Good? ==> p <= r.next <= |data| && |r.value| == n && forall row :: row in r.value ==> |row| == |schema|
  {
    if n == 0 then Good([], p)
    else
      match GetRow(schema, data, p)
      case Bad => Bad
      case Good(row, q) => Before([row], GetRows(schema, n - 1, data, q))
  }

  /** What has been read, put before what is still to be read. */
  function Before<T>(s: seq<T>, r: Parsed<seq<T>>): Parsed<seq<T>> {
    if r.Bad? then Bad else Good(s + r.value, r.next)
  }

  lemma BeforeLaws<T>(a: seq<T>, b: seq<T>, r: Parsed<seq<T>>, p: nat)
    ensures Before([], r) == r
    ensures Before(a, Before(b, r)) == Before(a + b, r)
    ensures Before(a, Good([], p)) == Good(a, p) && Before(a, Bad) == Bad
  {
    if r.Good? {
      assert [] + r.value == r.value;
      assert a + (b + r.value) == a + b + r.value;
    }
    assert a + [] == a;
  }

  function GetTable(schema: seq<Kind>, cap: nat, data: seq<byte>, p: nat): (r: Parsed<seq<Row>>)
    requires p <= |data|
    ensures r.Good? ==> p <= r.next <= |data| && forall row :: row in r.value ==> |row| == |schema|
  {
    match GetCell(KNarrow, data, p)
    case Bad => Bad
    case Good(count, q) => GetRows(schema, Min(count.n, cap), data, q)
  }

  function MakeSession(numbers: Row, files: seq<Row>, focus: Utf8): Session
    requires SchemaOf(numbers) == NUMBERS
  {
    NumbersAre(numbers);
    Session(numbers[0].w, numbers[1].w, numbers[2].w, numbers[3].w, numbers[4].w, files, 0,
            if focus == [] then None else Some(focus))
  }

  lemma NumbersAre(numbers: Row)
    requires SchemaOf(numbers) == NUMBERS
    ensures |numbers| == 5 && forall i :: 0 <= i < 5 ==> numbers[i].Wide?
  {
    hide SchemaOf;
    SchemaAt(numbers, 0);
    SchemaAt(numbers, 1);
    SchemaAt(numbers, 2);
    SchemaAt(numbers, 3);
    SchemaAt(numbers, 4);
  }

  lemma {:induction false} SchemaAt(row: Row, i: nat)
    requires i < |row|
    ensures SchemaOf(row)[i] == row[i].Kind()
  {
    if i > 0 {
      SchemaAt(row[1..], i - 1);
    }
  }

  lemma {:induction false} RowHasSchema(schema: seq<Kind>, data: seq<byte>, p: nat)
    requires p <= |data|
    ensures GetRow(schema, data, p).Good? ==> SchemaOf(GetRow(schema, data, p).value) == schema
  {
    if schema != [] {
      var c := GetCell(schema[0], data, p);
      if c.Good? {
        RowHasSchema(schema[1..], data, c.next);
        var rest := GetRow(schema[1..], data, c.next);
        if rest.Good? {
          assert ([c.value] + rest.value)[1..] == rest.value;
        }
      }
    }
  }

  function GetSession(data: seq<byte>, p: nat): (r: Parsed<Session>)
    requires p <= |data|
    ensures r.Good? ==> p <= r.next <= |data|
  {
    RowHasSchema(NUMBERS, data, p);
    match GetRow(NUMBERS, data, p)
    case Bad => Bad
    case Good(numbers, q) =>
      match GetTable(FILE, MAX_FILES, data, q)
      case Bad => Bad
      case Good(files, q2) =>
        match GetCell(KText, data, q2)
        case Bad => Bad
        case Good(focus, q3) => Good(MakeSession(numbers, files, focus.s), q3)
  }

  function GetSessions(n: nat, data: seq<byte>, p: nat): (r: Parsed<seq<Session>>)
    requires p <= |data|
    ensures r.Good? ==> p <= r.next <= |data| && |r.value| == n
  {
    if n == 0 then Good([], p)
    else
      match GetSession(data, p)
      case Bad => Bad
      case Good(s, q) => Before([s], GetSessions(n - 1, data, q))
  }

  // ----- What comes back -----

  function KeptText(s: Utf8): Utf8 {
    Lossy(Clip(s))
  }

  function KeptCell(c: Cell): Cell {
    if c.Text? then Text(KeptText(c.s)) else c
  }

  function KeptRow(row: Row): (r: Row)
    ensures |r| == |row|
  {
    seq(|row|, i requires 0 <= i < |row| => KeptCell(row[i]))
  }

  function KeptRows(rows: seq<Row>): (r: seq<Row>)
    ensures |r| == |rows|
  {
    seq(|rows|, i requires 0 <= i < |rows| => KeptRow(rows[i]))
  }

  function KeptSession(s: Session): Session {
    var focus := KeptText(FocusText(s).s);
    s.(files := KeptRows(s.files[..Min(|s.files|, MAX_FILES)]), peakFiles := 0,
       focus := if focus == [] then None else Some(focus))
  }

  function KeptSessions(ss: seq<Session>): (r: seq<Session>)
    ensures |r| == |ss|
  {
    seq(|ss|, i requires 0 <= i < |ss| => KeptSession(ss[i]))
  }

  lemma AtSplit(data: seq<byte>, p: nat, a: seq<byte>, b: seq<byte>)
    requires At(data, p, a + b)
    ensures At(data, p, a) && At(data, p + |a|, b) && |a + b| == |a| + |b|
  {
    var e := p + |a| + |b|;
    assert data[p..p + |a|] == data[p..e][..|a|] == (a + b)[..|a|] == a;
    assert data[p + |a|..e] == data[p..e][|a|..] == (a + b)[|a|..] == b;
  }

  lemma CellBack(c: Cell, data: seq<byte>, p: nat)
    requires At(data, p, EncCell(c))
    ensures GetCell(c.Kind(), data, p) == Good(KeptCell(c), p + |EncCell(c)|)
  {
    match c
    case Wide(w) =>
    case Narrow(n) =>
    case Text(s) =>
      AtSplit(data, p, [|Clip(s)| as byte], Clip(s));
      assert data[p] == data[p..p + 1][0];
  }

  lemma KeptRowFirst(row: Row)
    ensures row == [] ==> KeptRow(row) == []
    ensures row != [] ==> KeptRow(row) == [KeptCell(row[0])] + KeptRow(row[1..])
  {
  }

  lemma {:induction false} RowBack(row: Row, data: seq<byte>, p: nat)
    requires p <= |data| && At(data, p, EncRow(row))
    ensures GetRow(SchemaOf(row), data, p) == Good(KeptRow(row), p + |EncRow(row)|)
    decreases |row|
  {
    hide EncCell, GetCell, KeptCell, KeptRow, At;
    KeptRowFirst(row);
    if row != [] {
      AtSplit(data, p, EncCell(row[0]), EncRow(row[1..]));
      CellBack(row[0], data, p);
      RowBack(row[1..], data, p + |EncCell(row[0])|);
      assert SchemaOf(row)[1..] == SchemaOf(row[1..]);
    }
  }

  lemma KeptRowsFirst(rows: seq<Row>)
    ensures rows == [] ==> KeptRows(rows) == []
    ensures rows != [] ==> KeptRows(rows) == [KeptRow(rows[0])] + KeptRows(rows[1..])
  {
  }

  lemma {:induction false} RowsBack(rows: seq<Row>, schema: seq<Kind>, data: seq<byte>, p: nat)
    requires p <= |data| && At(data, p, EncRows(rows)) && AllOf(rows, schema)
    ensures GetRows(schema, |rows|, data, p) == Good(KeptRows(rows), p + |EncRows(rows)|)
    decreases |rows|
  {
    hide EncRow, GetRow, KeptRow, KeptRows, SchemaOf, At, AllOf;
    KeptRowsFirst(rows);
    if rows != [] {
      AllOfPart(rows, schema, 1, |rows|);
      assert rows[1..|rows|] == rows[1..];
      FirstOf(rows, schema);
      AtSplit(data, p, EncRow(rows[0]), EncRows(rows[1..]));
      RowBack(rows[0], data, p);
      RowsBack(rows[1..], schema, data, p + |EncRow(rows[0])|);
    }
  }

  lemma TableBack(rows: seq<Row>, schema: seq<Kind>, cap: nat, data: seq<byte>, p: nat)
    requires |rows| <= cap <= MAX_PAIRS && p <= |data| && AllOf(rows, schema)
    requires At(data, p, EncTable(rows))
    ensures GetTable(schema, cap, data, p) == Good(KeptRows(rows), p + |EncTable(rows)|)
  {
    hide EncRows, GetRows, KeptRows, AllOf, At;
    AtSplit(data, p, U32ToLe(|rows|), EncRows(rows));
    CellBack(Narrow(|rows|), data, p);
    RowsBack(rows, schema, data, p + 4);
  }

  lemma SessionBack(s: Session, data: seq<byte>, p: nat)
    requires p <= |data| && At(data, p, EncSession(s)) && AllOf(s.files, FILE)
    ensures GetSession(data, p) == Good(KeptSession(s), p + |EncSession(s)|)
  {
    hide EncRow, EncTable, EncCell, GetRow, GetTable, GetCell, KeptRows, KeptText, SchemaOf, At, AllOf;
    AllOfPart(s.files, FILE, 0, Min(|s.files|, MAX_FILES));
    var files := s.files[..Min(|s.files|, MAX_FILES)];
    AtSplit(data, p, EncRow(Numbers(s)), EncTable(files) + EncCell(FocusText(s)));
    var q := p + |EncRow(Numbers(s))|;
    AtSplit(data, q, EncTable(files), EncCell(FocusText(s)));
    NumbersBack(s, data, p);
    TableBack(files, FILE, MAX_FILES, data, q);
    CellBack(FocusText(s), data, q + |EncTable(files)|);
  }

  lemma NumbersBack(s: Session, data: seq<byte>, p: nat)
    requires p <= |data| && At(data, p, EncRow(Numbers(s)))
    ensures GetRow(NUMBERS, data, p) == Good(Numbers(s), p + |EncRow(Numbers(s))|)
    ensures SchemaOf(Numbers(s)) == NUMBERS
  {
    var row := Numbers(s);
    forall i | 0 <= i < 5 ensures SchemaOf(row)[i] == NUMBERS[i] {
      SchemaAt(row, i);
    }
    assert SchemaOf(row) == NUMBERS;
    RowBack(row, data, p);
    assert KeptRow(row) == row;
  }

  lemma {:induction false} SessionsBack(ss: seq<Session>, data: seq<byte>, p: nat)
    requires p <= |data| && At(data, p, EncSessions(ss))
    requires forall s :: s in ss ==> AllOf(s.files, FILE)
    ensures GetSessions(|ss|, data, p) == Good(KeptSessions(ss), p + |EncSessions(ss)|)
    decreases |ss|
  {
    hide EncSession, GetSession, KeptSession, AllOf, At;
    if ss != [] {
      AtSplit(data, p, EncSession(ss[0]), EncSessions(ss[1..]));
      SessionBack(ss[0], data, p);
      SessionsBack(ss[1..], data, p + |EncSession(ss[0])|);
      assert KeptSessions(ss) == [KeptSession(ss[0])] + KeptSessions(ss[1..]);
    }
  }

  // ----- Hash maps -----

  /** A map entry in a row: the key cells, then the value cells. */
  datatype Entry = Entry(key: Row, val: Row)

  function RowOf(e: Entry): Row { e.key + e.val }

  function RowsOf(es: seq<Entry>): (r: seq<Row>)
    ensures |r| == |es|
  {
    seq(|es|, i requires 0 <= i < |es| => RowOf(es[i]))
  }

  function EntryIn(row: Row, k: nat): Entry
    requires k <= |row|
  {
    Entry(row[..k], row[k..])
  }

  function EntriesIn(rows: seq<Row>, k: nat): (r: seq<Entry>)
    requires forall row :: row in rows ==> k <= |row|
    ensures |r| == |rows|
  {
    seq(|rows|, i requires 0 <= i < |rows| => EntryIn(rows[i], k))
  }

  /** The map got by inserting the entries in turn. */
  function MapOf(es: seq<Entry>): Table {
    if es == [] then map[] else MapOf(es[..|es| - 1])[es[|es| - 1].key := es[|es| - 1].val]
  }

  ghost predicate DistinctKeys(es: seq<Entry>) {
    forall i, j :: 0 <= i < j < |es| ==> es[i].key != es[j].key
  }

  /** What is written for a map: entries of it, none twice, as many as the cap lets through. */
  ghost predicate Taken(es: seq<Entry>, m: Table, cap: nat) {
    && |es| == Min(|m|, cap) && DistinctKeys(es)
    && forall i :: 0 <= i < |es| ==> es[i].key in m && m[es[i].key] == es[i].val
  }

  lemma {:induction false} MapOfDistinct(es: seq<Entry>)
    requires DistinctKeys(es)
    ensures |MapOf(es)| == |es|
    ensures forall i :: 0 <= i < |es| ==> es[i].key in MapOf(es) && MapOf(es)[es[i].key] == es[i].val
    ensures forall key :: key in MapOf(es) ==> exists i :: 0 <= i < |es| && es[i].key == key
  {
    if es != [] {
      MapOfDistinct(es[..|es| - 1]);
    }
  }

  lemma SameSize<T>(a: set<T>, b: set<T>)
    requires a <= b && |a| == |b|
    ensures a == b
  {
    assert b == a + (b - a);
  }

  function KeptEntry(e: Entry): Entry {
    Entry(e.key, KeptRow(e.val))
  }

  function KeptEntries(es: seq<Entry>): (r: seq<Entry>)
    ensures |r| == |es|
  {
    seq(|es|, i requires 0 <= i < |es| => KeptEntry(es[i]))
  }

  lemma KeysCovered(es: seq<Entry>, m: Table, cap: nat, key: Row)
    requires Taken(es, m, cap) && |m| <= cap && key in m
    ensures exists i :: 0 <= i < |es| && es[i].key == key
  {
    MapOfDistinct(es);
    forall k | k in MapOf(es).Keys ensures k in m.Keys {
      var i :| 0 <= i < |es| && es[i].key == k;
    }
    assert |MapOf(es).Keys| == |MapOf(es)| && |m.Keys| == |m|;
    SameSize(MapOf(es).Keys, m.Keys);
  }

  /** A map comes back whole exactly when it is within its cap and its values survive. */
  lemma MapKept(es: seq<Entry>, m: Table, cap: nat)
    requires Taken(es, m, cap)
    ensures MapOf(KeptEntries(es)) == m
            <==> |m| <= cap && forall key :: key in m ==> KeptRow(m[key]) == m[key]
  {
    hide KeptRow, MapOf;
    var kept := KeptEntries(es);
    var back := MapOf(kept);
    MapOfDistinct(kept);
    if |m| <= cap {
      forall key | key in m ensures key in back && back[key] == KeptRow(m[key]) {
        KeysCovered(es, m, cap, key);
        var i :| 0 <= i < |es| && es[i].key == key;
        assert kept[i].key == key;
      }
      assert back.Keys == m.Keys by {
        forall key | key in back ensures key in m {
          var i :| 0 <= i < |kept| && kept[i].key == key;
          assert es[i].key == key;
        }
      }
    }
  }

  ghost predicate Typed(e: Entry, schema: seq<Kind>, k: nat) {
    && |e.key| == k && SchemaOf(RowOf(e)) == schema
    && forall i :: 0 <= i < k ==> !e.key[i].Text?
  }

  ghost predicate TypedTable(m: Table, schema: seq<Kind>, k: nat) {
    forall key :: key in m ==> Typed(Entry(key, m[key]), schema, k)
  }

  function GetMap(schema: seq<Kind>, k: nat, cap: nat, data: seq<byte>, p: nat): (r: Parsed<Table>)
    requires p <= |data| && k <= |schema|
    ensures r.Good? ==> p <= r.next <= |data|
  {
    match GetTable(schema, cap, data, p)
    case Bad => Bad
    case Good(rows, q) => Good(MapOf(EntriesIn(rows, k)), q)
  }

  lemma EntryBack(e: Entry, schema: seq<Kind>, k: nat)
    requires Typed(e, schema, k)
    ensures k <= |KeptRow(RowOf(e))| && EntryIn(KeptRow(RowOf(e)), k) == KeptEntry(e)
  {
  }

  lemma MapBack(es: seq<Entry>, m: Table, schema: seq<Kind>, k: nat, cap: nat, data: seq<byte>, p: nat)
    requires Taken(es, m, cap) && TypedTable(m, schema, k) && k <= |schema| && cap <= MAX_PAIRS
    requires p <= |data| && At(data, p, EncTable(RowsOf(es)))
    ensures GetMap(schema, k, cap, data, p)
            == Good(MapOf(KeptEntries(es)), p + |EncTable(RowsOf(es))|)
  {
    hide At, EncTable, GetTable, KeptRow, MapOf, Typed;
    var rows := RowsOf(es);
    forall i | 0 <= i < |es| ensures Typed(es[i], schema, k) {
      assert es[i] == Entry(es[i].key, m[es[i].key]);
    }
    TypedRows(es, schema, k);
    TableBack(rows, schema, cap, data, p);
    var kept := KeptRows(rows);
    forall i | 0 <= i < |es| ensures k <= |kept[i]| && EntryIn(kept[i], k) == KeptEntry(es[i]) {
      EntryBack(es[i], schema, k);
    }
    assert EntriesIn(kept, k) == KeptEntries(es);
  }

  lemma TypedRows(es: seq<Entry>, schema: seq<Kind>, k: nat)
    requires forall i :: 0 <= i < |es| ==> Typed(es[i], schema, k)
    ensures AllOf(RowsOf(es), schema)
  {
  }

  // ----- The whole image -----

  /** The order in which the hash maps were walked. */
  datatype Walk = Walk(temporal: seq<Entry>, streaks: seq<Entry>, pairs: seq<Entry>, daily: seq<Entry>,
                       names: seq<Entry>)

  ghost predicate Walks(o: Walk, m: Memory) {
    && Taken(o.temporal, m.temporal, MAX_ROWS) && Taken(o.streaks, m.streaks, MAX_ROWS)
    && Taken(o.pairs, m.pairs, MAX_PAIRS) && Taken(o.daily, m.daily, MAX_ROWS) && Taken(o.names, m.names, MAX_ROWS)
  }

  ghost predicate WellTyped(m: Memory) {
    && (forall s :: s in m.sessions ==> AllOf(s.files, FILE))
    && TypedTable(m.temporal, TEMPORAL, 1) && TypedTable(m.streaks, STREAK, 1) && TypedTable(m.pairs, PAIR, 2)
    && TypedTable(m.daily, DAILY, 1) && TypedTable(m.names, FILE, 1)
  }

  function FirstSessions(m: Memory): (r: seq<Session>)
    ensures |r| == Min(|m.sessions|, MAX_SESSIONS)
  {
    m.sessions[..Min(|m.sessions|, MAX_SESSIONS)]
  }

  /** Everything behind the sessions: five maps, with the trend's last day before the fourth. */
  function EncTables(m: Memory, o: Walk): seq<byte>
    requires ImageLengths(o)
  {
    EncTable(RowsOf(o.temporal))
    + (EncTable(RowsOf(o.streaks))
       + (EncTable(RowsOf(o.pairs))
          + (EncCell(Wide(m.lastDay)) + (EncTable(RowsOf(o.daily)) + EncTable(RowsOf(o.names))))))
  }

  function Image(m: Memory, o: Walk): seq<byte>
    requires ImageLengths(o)
  {
    var sessions := FirstSessions(m);
    MAGIC + (EncCell(Wide(m.totalSessions)) + (EncCell(Narrow(|sessions|)) + (EncSessions(sessions) + EncTables(m, o))))
  }

  /** What is read back from behind the sessions. */
  function GetTables(total: u64, sessions: seq<Session>, data: seq<byte>, p: nat): (r: Parsed<Memory>)
    requires p <= |data|
    ensures r.Good? ==> r.next <= |data|
  {
    match GetMap(TEMPORAL, 1, MAX_ROWS, data, p)
    case Bad => Bad
    case Good(temporal, p1) =>
      match GetMap(STREAK, 1, MAX_ROWS, data, p1)
      case Bad => Bad
      case Good(streaks, p2) =>
        match GetMap(PAIR, 2, MAX_PAIRS, data, p2)
        case Bad => Bad
        case Good(pairs, p3) =>
          match GetCell(KWide, data, p3)
          case Bad => Bad
          case Good(lastDay, p4) =>
            match GetMap(DAILY, 1, MAX_ROWS, data, p4)
            case Bad => Bad
            case Good(daily, p5) =>
              match GetMap(FILE, 1, MAX_ROWS, data, p5)
              case Bad => Bad
              case Good(names, p6) =>
                Good(Memory(total, sessions, temporal, streaks, pairs, lastDay.w, daily, names), p6)
  }

  /** The memory an image holds, and where the image ends. */
  function GetImage(data: seq<byte>): (r: Parsed<Memory>)
    ensures r.Good? ==> r.next <= |data|
  {
    if |data| < 8 || data[..8] != MAGIC then Bad
    else
      match GetCell(KWide, data, 8)
      case Bad => Bad
      case Good(total, p1) =>
        match GetCell(KNarrow, data, p1)
        case Bad => Bad
        case Good(count, p2) =>
          match GetSessions(Min(count.n, MAX_SESSIONS), data, p2)
          case Bad => Bad
          case Good(sessions, p3) => GetTables(total.w, sessions, data, p3)
  }

  function GetMemory(data: seq<byte>): Option<Memory> {
    match GetImage(data)
    case Bad => None
    case Good(m, _) => Some(m)
  }

  /** The memory with everything over a cap dropped, strings clipped and repaired, and peaks forgotten. */
  function Kept(m: Memory, o: Walk): Memory {
    Memory(m.totalSessions, KeptSessions(FirstSessions(m)), MapOf(KeptEntries(o.temporal)),
           MapOf(KeptEntries(o.streaks)), MapOf(KeptEntries(o.pairs)), m.lastDay,
           MapOf(KeptEntries(o.daily)), MapOf(KeptEntries(o.names)))
  }

  lemma TablesBack(m: Memory, o: Walk, total: u64, sessions: seq<Session>, data: seq<byte>, p: nat)
    requires Walks(o, m) && WellTyped(m) && p <= |data| && At(data, p, EncTables(m, o))
    ensures GetTables(total, sessions, data, p)
            == Good(Kept(m, o).(totalSessions := total, sessions := sessions), p + |EncTables(m, o)|)
  {
    hide At, EncTable, EncCell, GetMap, GetCell, MapOf, KeptEntries, TypedTable, Taken, KeptSessions;
    TakenSmall(o, m);
    var t5, t4 := EncTable(RowsOf(o.names)), EncTable(RowsOf(o.daily));
    var d := EncCell(Wide(m.lastDay));
    var t3, t2, t1 := EncTable(RowsOf(o.pairs)), EncTable(RowsOf(o.streaks)), EncTable(RowsOf(o.temporal));
    AtSplit(data, p, t1, t2 + (t3 + (d + (t4 + t5))));
    MapBack(o.temporal, m.temporal, TEMPORAL, 1, MAX_ROWS, data, p);
    var p1 := p + |t1|;
    AtSplit(data, p1, t2, t3 + (d + (t4 + t5)));
    AtInside(data, p1, t2);
    MapBack(o.streaks, m.streaks, STREAK, 1, MAX_ROWS, data, p1);
    var p2 := p1 + |t2|;
    AtSplit(data, p2, t3, d + (t4 + t5));
    AtInside(data, p2, t3);
    MapBack(o.pairs, m.pairs, PAIR, 2, MAX_PAIRS, data, p2);
    var p3 := p2 + |t3|;
    AtSplit(data, p3, d, t4 + t5);
    CellBack(Wide(m.lastDay), data, p3);
    var p4 := p3 + |d|;
    AtSplit(data, p4, t4, t5);
    AtInside(data, p4, t4);
    MapBack(o.daily, m.daily, DAILY, 1, MAX_ROWS, data, p4);
    AtInside(data, p4 + |t4|, t5);
    MapBack(o.names, m.names, FILE, 1, MAX_ROWS, data, p4 + |t4|);
  }

  lemma TakenSmall(o: Walk, m: Memory)
    requires Walks(o, m)
    ensures |o.temporal| <= MAX_ROWS && |o.streaks| <= MAX_ROWS && |o.pairs| <= MAX_PAIRS
    ensures |o.daily| <= MAX_ROWS && |o.names| <= MAX_ROWS
  {
  }

  lemma AtInside(data: seq<byte>, p: nat, b: seq<byte>)
    requires At(data, p, b)
    ensures p + |b| <= |data|
  {
  }

  /** Whatever order the maps are walked in, reading the image gives the kept memory, and takes the whole image. */
  lemma ImageBack(m: Memory, o: Walk)
    requires Walks(o, m) && WellTyped(m)
    ensures GetImage(Image(m, o)) == Good(Kept(m, o), |Image(m, o)|)
  {
    hide EncCell, EncSessions, EncTables, GetCell, GetSessions, GetTables, KeptSessions, MapOf, KeptEntries, TypedTable,
      Taken, AllOf;
    TakenSmall(o, m);
    var data := Image(m, o);
    var ss := FirstSessions(m);
    var total, count, tail := EncCell(Wide(m.totalSessions)), EncCell(Narrow(|ss|)), EncTables(m, o);
    assert At(data, 0, data);
    AtSplit(data, 0, MAGIC, total + (count + (EncSessions(ss) + tail)));
    AtSplit(data, 8, total, count + (EncSessions(ss) + tail));
    CellBack(Wide(m.totalSessions), data, 8);
    var p1 := 8 + |total|;
    AtSplit(data, p1, count, EncSessions(ss) + tail);
    CellBack(Narrow(|ss|), data, p1);
    var p2 := p1 + |count|;
    AtSplit(data, p2, EncSessions(ss), tail);
    SessionsBack(ss, data, p2);
    TablesBack(m, o, m.totalSessions, KeptSessions(ss), data, p2 + |EncSessions(ss)|);
  }

  // ----- Images cut short -----

  lemma CellLocal(kind: Kind, data: seq<byte>, n: nat, p: nat)
    requires n <= |data| && GetCell(kind, data[..n], p).Good?
    ensures GetCell(kind, data, p) == GetCell(kind, data[..n], p)
  {
    var q := GetCell(kind, data[..n], p).next;
    hide LeToU64, LeToU32, Lossy;
    assert data[..n][p..q] == data[p..q];
    if kind == KText {
      assert data[..n][p + 1..q] == data[p + 1..q];
    }
  }

  lemma {:induction false} RowLocal(schema: seq<Kind>, data: seq<byte>, n: nat, p: nat)
    requires p <= n <= |data| && GetRow(schema, data[..n], p).Good?
    ensures GetRow(schema, data, p) == GetRow(schema, data[..n], p)
  {
    hide GetCell;
    if schema != [] {
      CellLocal(schema[0], data, n, p);
      RowLocal(schema[1..], data, n, GetCell(schema[0], data, p).next);
    }
  }

  lemma {:induction false} RowsLocal(schema: seq<Kind>, k: nat, data: seq<byte>, n: nat, p: nat)
    requires p <= n <= |data| && GetRows(schema, k, data[..n], p).Good?
    ensures GetRows(schema, k, data, p) == GetRows(schema, k, data[..n], p)
  {
    hide GetRow;
    if k != 0 {
      RowLocal(schema, data, n, p);
      RowsLocal(schema, k - 1, data, n, GetRow(schema, data, p).next);
    }
  }

  lemma TableLocal(schema: seq<Kind>, cap: nat, data: seq<byte>, n: nat, p: nat)
    requires p <= n <= |data| && GetTable(schema, cap, data[..n], p).Good?
    ensures GetTable(schema, cap, data, p) == GetTable(schema, cap, data[..n], p)
  {
    hide GetCell, GetRows;
    CellLocal(KNarrow, data, n, p);
    var count := GetCell(KNarrow, data, p);
    RowsLocal(schema, Min(count.value.n, cap), data, n, count.next);
  }

  lemma MapLocal(schema: seq<Kind>, k: nat, cap: nat, data: seq<byte>, n: nat, p: nat)
    requires p <= n <= |data| && k <= |schema| && GetMap(schema, k, cap, data[..n], p).Good?
    ensures GetMap(schema, k, cap, data, p) == GetMap(schema, k, cap, data[..n], p)
  {
    hide GetTable;
    TableLocal(schema, cap, data, n, p);
  }

  lemma SessionLocal(data: seq<byte>, n: nat, p: nat)
    requires p <= n <= |data| && GetSession(data[..n], p).Good?
    ensures GetSession(data, p) == GetSession(data[..n], p)
  {
    hide GetRow, GetTable, GetCell;
    RowLocal(NUMBERS, data, n, p);
    var q := GetRow(NUMBERS, data, p).next;
    TableLocal(FILE, MAX_FILES, data, n, q);
    CellLocal(KText, data, n, GetTable(FILE, MAX_FILES, data, q).next);
  }

  lemma {:induction false} SessionsLocal(k: nat, data: seq<byte>, n: nat, p: nat)
    requires p <= n <= |data| && GetSessions(k, data[..n], p).Good?
    ensures GetSessions(k, data, p) == GetSessions(k, data[..n], p)
  {
    hide GetSession;
    if k != 0 {
      SessionLocal(data, n, p);
      SessionsLocal(k - 1, data, n, GetSession(data, p).next);
    }
  }

  lemma TablesLocal(total: u64, sessions: seq<Session>, data: seq<byte>, n: nat, p: nat)
    requires p <= n <= |data| && GetTables(total, sessions, data[..n], p).Good?
    ensures GetTables(total, sessions, data, p) == GetTables(total, sessions, data[..n], p)
  {
    hide GetMap, GetCell;
    MapLocal(TEMPORAL, 1, MAX_ROWS, data, n, p);
    var p1 := GetMap(TEMPORAL, 1, MAX_ROWS, data, p).next;
    MapLocal(STREAK, 1, MAX_ROWS, data, n, p1);
    var p2 := GetMap(STREAK, 1, MAX_ROWS, data, p1).next;
    MapLocal(PAIR, 2, MAX_PAIRS, data, n, p2);
    var p3 := GetMap(PAIR, 2, MAX_PAIRS, data, p2).next;
    CellLocal(KWide, data, n, p3);
    var p4 := GetCell(KWide, data, p3).next;
    MapLocal(DAILY, 1, MAX_ROWS, data, n, p4);
    MapLocal(FILE, 1, MAX_ROWS, data, n, GetMap(DAILY, 1, MAX_ROWS, data, p4).next);
  }

  /** What can be read from the beginning of some bytes is read from all of them. */
  lemma ImageLocal(data: seq<byte>, n: nat)
    requires n <= |data| && GetImage(data[..n]).Good?
    ensures GetImage(data) == GetImage(data[..n])
  {
    hide GetCell, GetSessions, GetTables;
    assert data[..n][..8] == data[..8];
    CellLocal(KWide, data, n, 8);
    var p1 := GetCell(KWide, data, 8).next;
    CellLocal(KNarrow, data, n, p1);
    var count := GetCell(KNarrow, data, p1);
    SessionsLocal(Min(count.value.n, MAX_SESSIONS), data, n, count.next);
    var sessions := GetSessions(Min(count.value.n, MAX_SESSIONS), data, count.next);
    TablesLocal(GetCell(KWide, data, 8).value.w, sessions.value, data, n, sessions.next);
  }

  /** No image that is cut short anywhere is read as a memory. */
  lemma CutImageRefused(m: Memory, o: Walk, n: nat)
    requires Walks(o, m) && WellTyped(m) && n < |Image(m, o)|
    ensures GetMemory(Image(m, o)[..n]) == None
  {
    hide Image, GetImage, Walks, WellTyped, Taken;
    TakenSmall(o, m);
    ImageBack(m, o);
    if GetImage(Image(m, o)[..n]).Good? {
      ImageLocal(Image(m, o), n);
    }
  }

  lemma CutShort(m: Memory, image: seq<byte>, data: seq<byte>)
    requires IsImage(m, image) && WellTyped(m) && data < image
    ensures GetMemory(data) == None
  {
    hide Walks, Image, GetMemory, WellTyped;
    var o :| Walks(o, m) && ImageLengths(o) && image == Image(m, o);
    assert data == image[..|data|];
    CutImageRefused(m, o, |data|);
  }

  // ----- What survives -----

  /** Strings are valid UTF-8. */
  ghost predicate ValidRow(row: Row) {
    forall i :: 0 <= i < |row| && row[i].Text? ==> Valid(row[i].s)
  }

  ghost predicate ValidTable(m: Table) {
    forall key :: key in m ==> ValidRow(m[key])
  }

  ghost predicate ValidSession(s: Session) {
    (forall i :: 0 <= i < |s.files| ==> ValidRow(s.files[i])) && (s.focus.Some? ==> Valid(s.focus.value))
  }

  ghost predicate ValidTexts(m: Memory) {
    && (forall i :: 0 <= i < |m.sessions| ==> ValidSession(m.sessions[i]))
    && ValidTable(m.temporal) && ValidTable(m.streaks) && ValidTable(m.pairs) && ValidTable(m.daily)
    && ValidTable(m.names)
  }

  /** At most 255 bytes; or at most 257 of which the last three are U+FFFD, which reading puts back whole. */
  predicate TextSurvives(s: Utf8) {
    |s| <= 255 || (|s| <= 257 && s[|s| - 3..] == [0xEF, 0xBF, 0xBD])
  }

  predicate RowSurvives(row: Row) {
    forall i :: 0 <= i < |row| && row[i].Text? ==> TextSurvives(row[i].s)
  }

  ghost predicate SessionSurvives(s: Session) {
    && |s.files| <= 100 && (forall i :: 0 <= i < |s.files| ==> RowSurvives(s.files[i]))
    && s.peakFiles == 0 && (s.focus.Some? ==> s.focus.value != [] && TextSurvives(s.focus.value))
  }

  ghost predicate TableSurvives(m: Table, cap: nat) {
    |m| <= cap && forall key :: key in m ==> RowSurvives(m[key])
  }

  /** Nothing is over its cap, no session has a peak or an empty focus name, and no string is too long. */
  ghost predicate Survives(m: Memory) {
    && |m.sessions| <= 500
    && (forall i :: 0 <= i < |m.sessions| ==> SessionSurvives(m.sessions[i]))
    && TableSurvives(m.temporal, 10_000) && TableSurvives(m.streaks, 10_000) && TableSurvives(m.pairs, 50_000)
    && TableSurvives(m.daily, 10_000) && TableSurvives(m.names, 10_000)
  }

  /** A string comes back exactly when it survives. */
  lemma TextKept(s: Utf8)
    requires Valid(s)
    ensures KeptText(s) == s <==> TextSurvives(s)
  {
    if |s| <= MAX_STRING {
      assert s[..|s|] == s;
      ValidIsKept(s);
    } else {
      CutIsKept(s, MAX_STRING);
    }
  }

  lemma RowKept(row: Row)
    requires ValidRow(row)
    ensures KeptRow(row) == row <==> RowSurvives(row)
  {
    hide KeptText, TextSurvives, Valid;
    forall i | 0 <= i < |row| ensures KeptCell(row[i]) == row[i] <==> (row[i].Text? ==> TextSurvives(row[i].s)) {
      if row[i].Text? {
        TextKept(row[i].s);
      }
    }
  }

  lemma TableKept(es: seq<Entry>, m: Table, cap: nat)
    requires Taken(es, m, cap) && ValidTable(m)
    ensures MapOf(KeptEntries(es)) == m <==> TableSurvives(m, cap)
  {
    hide KeptRow, MapOf, KeptEntries, Taken, ValidRow, RowSurvives;
    MapKept(es, m, cap);
    forall key | key in m ensures KeptRow(m[key]) == m[key] <==> RowSurvives(m[key]) {
      RowKept(m[key]);
    }
  }

  lemma SessionKept(s: Session)
    requires ValidSession(s)
    ensures KeptSession(s) == s <==> SessionSurvives(s)
  {
    hide KeptRow, KeptText, RowSurvives, TextSurvives, Valid, ValidRow;
    NoTextKept();
    if s.focus.Some? {
      TextKept(s.focus.value);
      NothingKeptOfNothing(s.focus.value);
    }
    forall i | 0 <= i < |s.files| ensures KeptRow(s.files[i]) == s.files[i] <==> RowSurvives(s.files[i]) {
      RowKept(s.files[i]);
    }
    if |s.files| <= MAX_FILES {
      assert s.files[..|s.files|] == s.files;
      assert KeptRows(s.files) == s.files <==> forall i :: 0 <= i < |s.files| ==> KeptRow(s.files[i]) == s.files[i];
    }
  }

  lemma NoTextKept()
    ensures KeptText([]) == []
  {
  }

  lemma NothingKeptOfNothing(s: Utf8)
    ensures s == [] ==> KeptText(s) == []
  {
  }

  lemma SessionsKept(m: Memory)
    requires forall i :: 0 <= i < |m.sessions| ==> ValidSession(m.sessions[i])
    ensures KeptSessions(FirstSessions(m)) == m.sessions
            <==> |m.sessions| <= MAX_SESSIONS
                 && forall i :: 0 <= i < |m.sessions| ==> SessionSurvives(m.sessions[i])
  {
    hide KeptSession, SessionSurvives, ValidSession;
    forall i | 0 <= i < |m.sessions|
      ensures KeptSession(m.sessions[i]) == m.sessions[i] <==> SessionSurvives(m.sessions[i])
    {
      SessionKept(m.sessions[i]);
    }
  }

  /** The image restores the memory exactly when it survives. */
  lemma RestoredIffSurvives(m: Memory, o: Walk)
    requires Walks(o, m) && WellTyped(m) && ValidTexts(m)
    ensures GetMemory(Image(m, o)) == Some(m) <==> Survives(m)
  {
    hide KeptSessions, MapOf, KeptEntries, SessionSurvives, TableSurvives, Taken, TypedTable, KeptRow, GetImage, Image,
      ValidSession, ValidTable;
    ImageBack(m, o);
    SessionsKept(m);
    TableKept(o.temporal, m.temporal, MAX_ROWS);
    TableKept(o.streaks, m.streaks, MAX_ROWS);
    TableKept(o.pairs, m.pairs, MAX_PAIRS);
    TableKept(o.daily, m.daily, MAX_ROWS);
    TableKept(o.names, m.names, MAX_ROWS);
  }

  // ----- The reader and the writer -----

  /** What a read that stopped at `p` says. */
  function Outcome<T>(r: Option<T>, p: nat): Parsed<T> {
    if r.Some? then Good(r.value, p) else Bad
  }

  class Cursor {
    const data: seq<byte>
    var p: nat

    ghost predicate Valid()
      reads this
    {
      p <= |data|
    }

    constructor (data: seq<byte>, start: nat)
      requires start <= |data|
      ensures Valid() && p == start && this.data == data
    {
      this.data, this.p := data, start;
    }

    method ReadCell(kind: Kind) returns (r: Option<Cell>)
      requires Valid()
      modifies this
      ensures Valid() && Outcome(r, p) == GetCell(kind, data, old(p))
    {
      r := None;
      match kind
      case KWide =>
        if p + 8 <= |data| {
          r := Some(Wide(LeToU64(data[p..p + 8])));
          p := p + 8;
        }
      case KNarrow =>
        if p + 4 <= |data| {
          r := Some(Narrow(LeToU32(data[p..p + 4])));
          p := p + 4;
        }
      case KText =>
        if p < |data| {
          var len := data[p] as nat;
          p := p + 1;
          if p + len <= |data| {
            r := Some(Text(Lossy(data[p..p + len])));
            p := p + len;
          }
        }
    }

    method ReadRow(schema: seq<Kind>) returns (r: Option<Row>)
      requires Valid()
      modifies this
      ensures Valid() && Outcome(r, p) == GetRow(schema, data, old(p))
    {
      hide GetCell, Before;
      var row := [];
      assert schema[0..] == schema;
      BeforeLaws<Cell>([], [], GetRow(schema, data, p), p);
      for i := 0 to |schema|
        invariant Valid() && GetRow(schema, data, old(p)) == Before(row, GetRow(schema[i..], data, p))
      {
        var c := ReadCell(schema[i]);
        BeforeLaws(row, [], Bad, p);
        if c.None? {
          return None;
        }
        assert schema[i..][1..] == schema[i + 1..];
        BeforeLaws(row, [c.value], GetRow(schema[i + 1..], data, p), p);
        row := row + [c.value];
      }
      BeforeLaws(row, [], Bad, p);
      r := Some(row);
    }

    method ReadTable(schema: seq<Kind>, cap: nat) returns (r: Option<seq<Row>>)
      requires Valid()
      modifies this
      ensures Valid() && Outcome(r, p) == GetTable(schema, cap, data, old(p))
    {
      hide GetCell, GetRow, Before;
      var count := ReadCell(KNarrow);
      if count.None? {
        return None;
      }
      var n := Min(count.value.n, cap);
      ghost var start := p;
      var rows := [];
      BeforeLaws<Row>([], [], GetRows(schema, n, data, p), p);
      for i := 0 to n
        invariant Valid()
        invariant GetRows(schema, n, data, start) == Before(rows, GetRows(schema, n - i, data, p))
      {
        var row := ReadRow(schema);
        BeforeLaws(rows, [], Bad, p);
        if row.None? {
          return None;
        }
        BeforeLaws(rows, [row.value], GetRows(schema, n - i - 1, data, p), p);
        rows := rows + [row.value];
      }
      BeforeLaws(rows, [], Bad, p);
      r := Some(rows);
    }

    /** Reads the rows of a hash map and inserts them one by one. */
    method ReadMap(schema: seq<Kind>, k: nat, cap: nat) returns (r: Option<Table>)
      requires Valid() && k <= |schema|
      modifies this
      ensures Valid() && Outcome(r, p) == GetMap(schema, k, cap, data, old(p))
    {
      hide GetCell, GetRow, Before, MapOf, EntriesIn;
      var count := ReadCell(KNarrow);
      if count.None? {
        return None;
      }
      var n := Min(count.value.n, cap);
      ghost var start := p;
      ghost var rows: seq<Row> := [];
      BeforeLaws<Row>([], [], GetRows(schema, n, data, p), p);
      MapOfNone(k);
      var m: Table := map[];
      for i := 0 to n
        invariant Valid() && (forall row :: row in rows ==> |row| == |schema|)
        invariant GetRows(schema, n, data, start) == Before(rows, GetRows(schema, n - i, data, p))
        invariant m == MapOf(EntriesIn(rows, k))
      {
        var row := ReadRow(schema);
        BeforeLaws(rows, [], Bad, p);
        if row.None? {
          return None;
        }
        BeforeLaws(rows, [row.value], GetRows(schema, n - i - 1, data, p), p);
        MapOfNext(rows, row.value, k);
        m := m[row.value[..k] := row.value[k..]];
        rows := rows + [row.value];
      }
      BeforeLaws(rows, [], Bad, p);
      r := Some(m);
    }

    method ReadSession() returns (r: Option<Session>)
      requires Valid()
      modifies this
      ensures Valid() && Outcome(r, p) == GetSession(data, old(p))
    {
      hide GetCell, GetRow, GetTable;
      RowHasSchema(NUMBERS, data, p);
      var numbers := ReadRow(NUMBERS);
      if numbers.None? {
        return None;
      }
      var files := ReadTable(FILE, MAX_FILES);
      if files.None? {
        return None;
      }
      var focus := ReadCell(KText);
      if focus.None? {
        return None;
      }
      r := Some(MakeSession(numbers.value, files.value, focus.value.s));
    }

    method ReadSessions(n: nat) returns (r: Option<seq<Session>>)
      requires Valid()
      modifies this
      ensures Valid() && Outcome(r, p) == GetSessions(n, data, old(p))
    {
      hide GetSession, Before;
      var sessions := [];
      BeforeLaws<Session>([], [], GetSessions(n, data, p), p);
      for i := 0 to n
        invariant Valid()
        invariant GetSessions(n, data, old(p)) == Before(sessions, GetSessions(n - i, data, p))
      {
        var s := ReadSession();
        BeforeLaws(sessions, [], Bad, p);
        if s.None? {
          return None;
        }
        BeforeLaws(sessions, [s.value], GetSessions(n - i - 1, data, p), p);
        sessions := sessions + [s.value];
      }
      BeforeLaws(sessions, [], Bad, p);
      r := Some(sessions);
    }

    method ReadTables(total: u64, sessions: seq<Session>) returns (r: Option<Memory>)
      requires Valid()
      modifies this
      ensures Valid() && Outcome(r, p) == GetTables(total, sessions, data, old(p))
    {
      hide GetCell, GetMap;
      var temporal := ReadMap(TEMPORAL, 1, MAX_ROWS);
      if temporal.None? { return None; }
      var streaks := ReadMap(STREAK, 1, MAX_ROWS);
      if streaks.None? { return None; }
      var pairs := ReadMap(PAIR, 2, MAX_PAIRS);
      if pairs.None? { return None; }
      var lastDay := ReadCell(KWide);
      if lastDay.None? { return None; }
      var daily := ReadMap(DAILY, 1, MAX_ROWS);
      if daily.None? { return None; }
      var names := ReadMap(FILE, 1, MAX_ROWS);
      if names.None? { return None; }
      r := Some(Memory(total, sessions, temporal.value, streaks.value, pairs.value, lastDay.value.w, daily.value,
                       names.value));
    }
  }

  lemma MapOfNone(k: nat)
    ensures MapOf(EntriesIn([], k)) == map[]
  {
  }

  lemma MapOfNext(rows: seq<Row>, row: Row, k: nat)
    requires k <= |row| && forall r :: r in rows ==> k <= |r|
    ensures MapOf(EntriesIn(rows + [row], k)) == MapOf(EntriesIn(rows, k))[row[..k] := row[k..]]
  {
    var es := EntriesIn(rows + [row], k);
    assert es[..|es| - 1] == EntriesIn(rows, k);
  }

  /** Reads an image; None on bytes that are not one, and on any image that is cut short. */
  method FromBytes(data: seq<byte>) returns (r: Option<Memory>)
    ensures r == GetMemory(data)
    ensures forall m, image :: IsImage(m, image) && WellTyped(m) && data < image ==> r == None
  {
    forall m, image | IsImage(m, image) && WellTyped(m) && data < image ensures GetMemory(data) == None {
      CutShort(m, image, data);
    }
    hide GetCell, GetSessions, GetTables;
    if |data| < 8 || data[..8] != MAGIC {
      return None;
    }
    var cursor := new Cursor(data, 8);
    var total := cursor.ReadCell(KWide);
    if total.None? {
      return None;
    }
    var count := cursor.ReadCell(KNarrow);
    if count.None? {
      return None;
    }
    var sessions := cursor.ReadSessions(Min(count.value.n, MAX_SESSIONS));
    if sessions.None? {
      return None;
    }
    r := cursor.ReadTables(total.value.w, sessions.value);
  }

  lemma {:induction false} EncRowsNext(rows: seq<Row>, row: Row)
    ensures EncRows(rows + [row]) == EncRows(rows) + EncRow(row)
  {
    if rows != [] {
      EncRowsNext(rows[1..], row);
      assert (rows + [row])[1..] == rows[1..] + [row];
    } else {
      assert EncRows([row]) == EncRow(row) + EncRows([row][1..]);
    }
  }

  lemma {:induction false} EncSessionsNext(ss: seq<Session>, s: Session)
    ensures EncSessions(ss + [s]) == EncSessions(ss) + EncSession(s)
  {
    if ss != [] {
      EncSessionsNext(ss[1..], s);
      assert (ss + [s])[1..] == ss[1..] + [s];
    } else {
      assert EncSessions([s]) == EncSession(s) + EncSessions([s][1..]);
    }
  }

  /** Appends a hash map: the number of rows, then rows in any order until the cap. */
  method PushMap(out: seq<byte>, m: Table, cap: nat) returns (r: seq<byte>, ghost es: seq<Entry>)
    requires cap <= MAX_PAIRS
    ensures Taken(es, m, cap) && r == out + EncTable(RowsOf(es))
  {
    hide EncRow, EncRows, RowsOf, Pushed;
    r := out + U32ToLe(Min(|m|, cap));
    es := [];
    var left := m;
    NothingWritten();
    NothingPushed(m);
    while left != map[] && |m| - |left| < cap
      invariant Pushed(es, left, m) && |es| == |m| - |left| <= cap
      invariant r == out + U32ToLe(Min(|m|, cap)) + EncRows(RowsOf(es))
      decreases |left|
    {
      var key :| key in left;
      ghost var e := Entry(key, left[key]);
      EncRowsNext(RowsOf(es), RowOf(e));
      RowsOfNext(es, e);
      OnePushed(es, left, m, key);
      r := r + EncRow(key + left[key]);
      es := es + [e];
      left := left - {key};
    }
    AllPushed(es, left, m);
  }

  /** The entries written are distinct ones of the map and no longer among those left. */
  ghost predicate Pushed(es: seq<Entry>, left: Table, m: Table) {
    && DistinctKeys(es)
    && (forall key :: key in left ==> key in m && left[key] == m[key])
    && forall i :: 0 <= i < |es| ==> es[i].key in m && es[i].key !in left && m[es[i].key] == es[i].val
  }

  lemma NothingPushed(m: Table)
    ensures Pushed([], m, m)
  {
  }

  lemma OnePushed(es: seq<Entry>, left: Table, m: Table, key: Row)
    requires Pushed(es, left, m) && key in left
    ensures Pushed(es + [Entry(key, left[key])], left - {key}, m) && |left - {key}| == |left| - 1
  {
    assert |left.Keys - {key}| == |left| - 1;
    assert (left - {key}).Keys == left.Keys - {key};
  }

  lemma AllPushed(es: seq<Entry>, left: Table, m: Table)
    requires Pushed(es, left, m)
    ensures DistinctKeys(es) && forall i :: 0 <= i < |es| ==> es[i].key in m && m[es[i].key] == es[i].val
  {
  }

  lemma RowsOfNext(es: seq<Entry>, e: Entry)
    ensures RowsOf(es + [e]) == RowsOf(es) + [RowOf(e)]
  {
  }

  lemma NothingWritten()
    ensures EncRows(RowsOf([])) == []
  {
    assert RowsOf([]) == [];
  }

  method PushSessions(out: seq<byte>, m: Memory) returns (r: seq<byte>)
    ensures r == out + EncSessions(FirstSessions(m))
  {
    hide EncSession;
    r := out;
    var sessions := FirstSessions(m);
    for i := 0 to |sessions|
      invariant r == out + EncSessions(sessions[..i])
    {
      EncSessionsNext(sessions[..i], sessions[i]);
      assert sessions[..i + 1] == sessions[..i] + [sessions[i]];
      r := r + EncSession(sessions[i]);
    }
    assert sessions[..|sessions|] == sessions;
  }

  /** The bytes are the image of the memory under some order of its hash maps. */
  ghost predicate IsImage(m: Memory, out: seq<byte>) {
    exists o :: Walks(o, m) && ImageLengths(o) && out == Image(m, o)
  }

  predicate ImageLengths(o: Walk) {
    && |o.temporal| <= MAX_PAIRS && |o.streaks| <= MAX_PAIRS && |o.pairs| <= MAX_PAIRS
    && |o.daily| <= MAX_PAIRS && |o.names| <= MAX_PAIRS
  }

  method ToBytes(m: Memory) returns (out: seq<byte>)
    ensures IsImage(m, out) && BeginsAsDocumented(m, out)
  {
    hide EncCell, EncSessions, EncTable, Taken;
    out := MAGIC + EncCell(Wide(m.totalSessions)) + EncCell(Narrow(|FirstSessions(m)|));
    out := PushSessions(out, m);
    ghost var temporal, streaks, pairs, daily, names;
    out, temporal := PushMap(out, m.temporal, MAX_ROWS);
    out, streaks := PushMap(out, m.streaks, MAX_ROWS);
    out, pairs := PushMap(out, m.pairs, MAX_PAIRS);
    out := out + EncCell(Wide(m.lastDay));
    out, daily := PushMap(out, m.daily, MAX_ROWS);
    out, names := PushMap(out, m.names, MAX_ROWS);
    ghost var o := Walk(temporal, streaks, pairs, daily, names);
    TakenSmall(o, m);
    assert Walks(o, m);
    assert out == Image(m, o);
    ImageBegins(m, o);
  }

  /** "VEXMEM01", the number of sessions ever, the number of sessions in the image. */
  ghost predicate BeginsAsDocumented(m: Memory, out: seq<byte>) {
    && |out| >= 20 && out[..8] == [0x56, 0x45, 0x58, 0x4D, 0x45, 0x4D, 0x30, 0x31]
    && out[8..16] == ToLe(m.totalSessions, 8) && out[16..20] == ToLe(Min(|m.sessions|, 500), 4)
  }

  lemma ImageBegins(m: Memory, o: Walk)
    requires ImageLengths(o)
    ensures BeginsAsDocumented(m, Image(m, o))
  {
    hide ToLe, EncSessions, EncTables;
    var rest := EncSessions(FirstSessions(m)) + EncTables(m, o);
    var a, b := U64ToLe(m.totalSessions), U32ToLe(|FirstSessions(m)|);
    assert Image(m, o) == MAGIC + (a + (b + rest));
    assert (a + (b + rest))[..8] == a && (a + (b + rest))[8..12] == b;
    assert Image(m, o)[8..16] == (a + (b + rest))[..8] && Image(m, o)[16..20] == (a + (b + rest))[8..12];
  }

  /** Behind the sessions: times, streaks, pairs, the last day, daily counts and names, one behind the other. */
  lemma TablesLayout(m: Memory, o: Walk)
    requires ImageLengths(o)
    ensures var out := Image(m, o);
            var p1 := 20 + |EncSessions(FirstSessions(m))|;
            var p2 := p1 + |EncTable(RowsOf(o.temporal))|;
            var p3 := p2 + |EncTable(RowsOf(o.streaks))|;
            var p4 := p3 + |EncTable(RowsOf(o.pairs))|;
            var p5 := p4 + 8 + |EncTable(RowsOf(o.daily))|;
            && At(out, 20, EncSessions(FirstSessions(m))) && At(out, p1, EncTable(RowsOf(o.temporal)))
            && At(out, p2, EncTable(RowsOf(o.streaks))) && At(out, p3, EncTable(RowsOf(o.pairs)))
            && At(out, p4, ToLe(m.lastDay, 8)) && At(out, p4 + 8, EncTable(RowsOf(o.daily)))
            && At(out, p5, EncTable(RowsOf(o.names))) && |out| == p5 + |EncTable(RowsOf(o.names))|
  {
    hide ToLe, EncSessions, EncTable, RowsOf;
    var s, t := EncSessions(FirstSessions(m)), EncTable(RowsOf(o.temporal));
    var k, q, l := EncTable(RowsOf(o.streaks)), EncTable(RowsOf(o.pairs)), EncCell(Wide(m.lastDay));
    var d, n := EncTable(RowsOf(o.daily)), EncTable(RowsOf(o.names));
    var head := MAGIC + (EncCell(Wide(m.totalSessions)) + EncCell(Narrow(|FirstSessions(m)|)));
    assert Image(m, o) == head + (s + (t + (k + (q + (l + (d + n))))));
    InARow(head, s, t, k, q, l, d, n);
  }

  lemma InARow(a: seq<byte>, s: seq<byte>, t: seq<byte>, k: seq<byte>, q: seq<byte>, l: seq<byte>, d: seq<byte>,
               n: seq<byte>)
    ensures var out := a + (s + (t + (k + (q + (l + (d + n))))));
            && At(out, |a|, s) && At(out, |a| + |s|, t) && At(out, |a| + |s| + |t|, k)
            && At(out, |a| + |s| + |t| + |k|, q) && At(out, |a| + |s| + |t| + |k| + |q|, l)
            && At(out, |a| + |s| + |t| + |k| + |q| + |l|, d) && At(out, |a| + |s| + |t| + |k| + |q| + |l| + |d|, n)
  {
  }

  lemma AnyImageRestores(m: Memory, image: seq<byte>)
    requires IsImage(m, image) && WellTyped(m) && ValidTexts(m)
    ensures GetMemory(image) == Some(m) <==> Survives(m)
  {
    hide Walks, Image, GetMemory, Survives, WellTyped;
    var o :| Walks(o, m) && ImageLengths(o) && image == Image(m, o);
    RestoredIffSurvives(m, o);
  }

  /** Saving and loading gives the memory back exactly when it survives. */
  method SaveAndLoad(m: Memory) returns (r: Option<Memory>)
    requires WellTyped(m) && ValidTexts(m)
    ensures r == Some(m) <==> Survives(m)
  {
    hide *;
    var image := ToBytes(m);
    r := FromBytes(image);
    AnyImageRestores(m, image);
  }
}
