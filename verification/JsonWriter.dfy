/**
 The writers of `oc_rep.c`: each gets what is left of a buffer, prints piece by piece into it,
 and returns how much it would have printed. A document is measured with no buffer first and
 written into one of that size plus one afterwards.
 */
module JsonWriter {
  import opened CStrings
  import opened JsonLookup
  import opened Octets
  import opened JsonText
  import Base64

  // ----- what printing does to memory

  /** `snprintf(buf, size, "%s", text)` at `pos`: what fits, and a NUL, unless there is no room at all. */
  function PrintedAt(mem: seq<byte>, pos: nat, size: nat, text: seq<byte>): (mem': seq<byte>)
    requires pos + size <= |mem|
    ensures |mem'| == |mem|
  {
    if size == 0 then mem
    else
      var n := if |text| < size then |text| else size - 1;
      mem[..pos] + text[..n] + [NUL] + mem[pos + n + 1..]
  }

  /** A base64 text that does not fit with its closing quote and the NUL leaves only the opening quote. */
  function PieceAt(mem: seq<byte>, pos: nat, size: nat, p: Piece): (mem': seq<byte>)
    requires pos + size <= |mem|
    ensures |mem'| == |mem|
  {
    PrintedAt(mem, pos, size, if p.Quoted? && |Full(p)| >= size then [QUOTE] else Full(p))
  }

  /** Pieces in a row: the first that does not fit is the last that leaves a trace. */
  function Put(mem: seq<byte>, pos: nat, size: nat, ps: seq<Piece>): (mem': seq<byte>)
    requires pos + size <= |mem|
    ensures |mem'| == |mem|
    decreases |ps|
  {
    if ps == [] then mem
    else
      var n := |Full(ps[0])|;
      var mem1 := PieceAt(mem, pos, size, ps[0]);
      if n < size then Put(mem1, pos + n, size - n, ps[1..]) else mem1
  }

  /** What follows a text that fitted goes right after it; what follows one that did not is dropped. */
  lemma {:induction false} PutBoth(mem: seq<byte>, pos: nat, size: nat, a: seq<Piece>, b: seq<Piece>)
    requires pos + size <= |mem|
    ensures
      var mem1, n := Put(mem, pos, size, a), |Text(a)|;
      if n < size then Put(mem, pos, size, a + b) == Put(mem1, pos + n, size - n, b)
      else a != [] ==> Put(mem, pos, size, a + b) == mem1
    decreases |a|
  {
    hide Full, PrintedAt, PieceAt;
    if a == [] {
      assert a + b == b;
    } else {
      assert (a + b)[1..] == a[1..] + b;
      var n := |Full(a[0])|;
      if n < size { PutBoth(PieceAt(mem, pos, size, a[0]), pos + n, size - n, a[1..], b); }
    }
  }

  lemma {:induction false} PutNowhere(mem: seq<byte>, pos: nat, ps: seq<Piece>)
    requires pos <= |mem|
    ensures Put(mem, pos, 0, ps) == mem
  {
  }

  // ----- what a reader of the buffer sees

  /** How many characters of the text are left in a buffer of the given size. */
  function Kept(size: nat, ps: seq<Piece>): nat {
    if ps == [] || size == 0 then 0
    else
      var n := |Full(ps[0])|;
      if n < size then n + Kept(size - n, ps[1..])
      else if ps[0].Quoted? && size > 1 then 1
      else size - 1
  }

  /** Memory holding the first k characters of a text, terminated, at `pos`. */
  function Holding(mem: seq<byte>, pos: nat, text: seq<byte>, k: nat): (mem': seq<byte>)
    requires k <= |text| && pos + k < |mem|
    ensures |mem'| == |mem|
  {
    mem[..pos] + text[..k] + [NUL] + mem[pos + k + 1..]
  }

  lemma {:induction false} KeptBounds(size: nat, ps: seq<Piece>)
    ensures Kept(size, ps) <= |Text(ps)|
    ensures size > 0 ==> Kept(size, ps) < size
    ensures Kept(size, ps) == |Text(ps)| <==> |Text(ps)| < size || Text(ps) == []
    decreases |ps|
  {
    if ps != [] {
      var n := |Full(ps[0])|;
      if n < size { KeptBounds(size - n, ps[1..]); }
    }
  }

  /** The second of two texts lands after the first and overwrites its NUL. */
  lemma HoldingBoth(mem: seq<byte>, pos: nat, x: seq<byte>, y: seq<byte>, k: nat)
    requires k <= |y| && pos + |x| + k < |mem|
    ensures Holding(Holding(mem, pos, x, |x|), pos + |x|, y, k) == Holding(mem, pos, x + y, |x| + k)
  {
    var mem1 := Holding(mem, pos, x, |x|);
    assert mem1[..pos + |x|] == mem[..pos] + x;
    assert mem1[pos + |x| + k + 1..] == mem[pos + |x| + k + 1..];
    assert (x + y)[..|x| + k] == x + y[..k];
  }

  lemma PieceShowsPrefix(mem: seq<byte>, pos: nat, size: nat, p: Piece, rest: seq<byte>)
    requires pos + size <= |mem| && 0 < size
    ensures
      var k := if |Full(p)| < size then |Full(p)| else Kept(size, [p]);
      PieceAt(mem, pos, size, p) == Holding(mem, pos, Full(p) + rest, k)
  {
    var text := if p.Quoted? && |Full(p)| >= size then [QUOTE] else Full(p);
    var k := if |Full(p)| < size then |Full(p)| else Kept(size, [p]);
    assert text[..k] == (Full(p) + rest)[..k];
  }

  lemma FirstPieceShowsPrefix(mem: seq<byte>, pos: nat, size: nat, ps: seq<Piece>)
    requires pos + size <= |mem| && 0 < size && ps != []
    ensures
      var p, n := ps[0], |Full(ps[0])|;
      && (n < size ==> PieceAt(mem, pos, size, p) == Holding(mem, pos, Full(p), n))
      && (n >= size || |ps| == 1 ==> Kept(size, ps) <= |Text(ps)| && pos + Kept(size, ps) < |mem|
                                     && Put(mem, pos, size, ps) == Holding(mem, pos, Text(ps), Kept(size, ps)))
  {
    KeptBounds(size, ps);
    PieceShowsPrefix(mem, pos, size, ps[0], Text(ps[1..]));
    PieceShowsPrefix(mem, pos, size, ps[0], []);
    assert Full(ps[0]) + [] == Full(ps[0]);
    hide PieceAt, PrintedAt, Full;
  }

  /** When the first piece fits, the others are printed behind it. */
  lemma RestBehindFirst(mem: seq<byte>, pos: nat, size: nat, ps: seq<Piece>)
    requires pos + size <= |mem| && |ps| > 1 && |Full(ps[0])| < size
    ensures
      var n, rest := |Full(ps[0])|, ps[1..];
      && Put(mem, pos, size, ps) == Put(Holding(mem, pos, Full(ps[0]), n), pos + n, size - n, rest)
      && Kept(size, ps) == n + Kept(size - n, rest)
      && Text(ps) == Full(ps[0]) + Text(rest)
      && Kept(size - n, rest) <= |Text(rest)| && Kept(size - n, rest) < size - n
  {
    FirstPieceShowsPrefix(mem, pos, size, ps);
    KeptBounds(size - |Full(ps[0])|, ps[1..]);
    hide PieceAt, PrintedAt, Full, Holding;
  }

  /**
   Exactly what ends up in memory: the first `Kept` characters of the text and a NUL, nothing else;
   and everything is kept exactly when the text and the NUL fit.
   */
  lemma {:induction false} PutShowsPrefix(mem: seq<byte>, pos: nat, size: nat, ps: seq<Piece>)
    requires pos + size <= |mem|
    requires ps != []
    ensures Kept(size, ps) <= |Text(ps)| && (size > 0 ==> Kept(size, ps) < size)
    ensures Kept(size, ps) == |Text(ps)| <==> |Text(ps)| < size || Text(ps) == []
    ensures Put(mem, pos, size, ps) == if size == 0 then mem else Holding(mem, pos, Text(ps), Kept(size, ps))
    decreases |ps|
  {
    hide Put, Kept, Text, Holding, Full;
    KeptBounds(size, ps);
    if size == 0 {
      PutNowhere(mem, pos, ps);
    } else {
      FirstPieceShowsPrefix(mem, pos, size, ps);
      var n := |Full(ps[0])|;
      if n < size && |ps| > 1 {
        RestBehindFirst(mem, pos, size, ps);
        PutShowsPrefix(Holding(mem, pos, Full(ps[0]), n), pos + n, size - n, ps[1..]);
        HoldingBoth(mem, pos, Full(ps[0]), Text(ps[1..]), Kept(size - n, ps[1..]));
      }
    }
  }

  // ----- printing

  /** `buf`, `buf_size` and `total_char_printed` of one writer. */
  datatype Cursor = Cursor(pos: nat, size: nat, total: nat)

  /** `OC_JSON_UPDATE_BUFFER_AND_TOTAL` */
  function Update(c: Cursor, printed: nat): Cursor {
    if printed < c.size then Cursor(c.pos + printed, c.size - printed, c.total + printed)
    else Cursor(c.pos + c.size, 0, c.total + printed)
  }

  /** What a writer was given. */
  datatype Job = Job(mem: seq<byte>, pos: nat, size: nat)

  function Mem(buf: array?<byte>): seq<byte>
    reads buf
  {
    if buf == null then [] else buf[..]
  }

  /** A writer may be given no buffer when its size is 0. */
  predicate Room(buf: array?<byte>, pos: nat, size: nat) {
    pos + size <= if buf == null then 0 else buf.Length
  }

  /** The writer has printed `ps` so far. */
  ghost predicate Printed(job: Job, ps: seq<Piece>, mem: seq<byte>, c: Cursor) {
    && job.pos + job.size <= |job.mem| == |mem|
    && c.total == |Text(ps)|
    && mem == Put(job.mem, job.pos, job.size, ps)
    && c.pos + c.size <= job.pos + job.size
    && (if c.total < job.size then c.pos == job.pos + c.total && c.size == job.size - c.total else c.size == 0)
  }

  lemma NothingPrinted(job: Job)
    requires job.pos + job.size <= |job.mem|
    ensures Printed(job, [], job.mem, Cursor(job.pos, job.size, 0))
  {
  }

  /** Whatever a callee printed at the cursor, the update puts the cursor right behind it. */
  lemma PrintedMore(job: Job, ps: seq<Piece>, mem: seq<byte>, c: Cursor, qs: seq<Piece>)
    requires Printed(job, ps, mem, c)
    ensures Printed(job, ps + qs, Put(mem, c.pos, c.size, qs), Update(c, |Text(qs)|))
  {
    hide PieceAt, PrintedAt, Full;
    TextOfBoth(ps, qs);
    PutBoth(job.mem, job.pos, job.size, ps, qs);
    if c.size == 0 { PutNowhere(mem, c.pos, qs); }
    if ps == [] { assert ps + qs == qs; }
    if job.size == 0 {
      PutNowhere(job.mem, job.pos, ps);
      PutNowhere(job.mem, job.pos, ps + qs);
    }
  }

  /** Memory that differs only by the text and its NUL. */
  lemma PrintedIs(mem: seq<byte>, mem': seq<byte>, pos: nat, size: nat, text: seq<byte>, k: nat)
    requires 0 < size && pos + size <= |mem| == |mem'| && k == if |text| < size then |text| else size - 1
    requires forall j | 0 <= j < k :: mem'[pos + j] == text[j]
    requires mem'[pos + k] == NUL
    requires forall j | 0 <= j < |mem| && !(pos <= j <= pos + k) :: mem'[j] == mem[j]
    ensures mem' == PrintedAt(mem, pos, size, text)
  {
    assert mem'[..pos] == mem[..pos];
    assert mem'[pos..pos + k] == text[..k];
    assert mem'[pos + k + 1..] == mem[pos + k + 1..];
    InFour(mem', pos, k);
  }

  lemma InFour(mem: seq<byte>, pos: nat, k: nat)
    requires pos + k < |mem|
    ensures mem == mem[..pos] + mem[pos..pos + k] + [mem[pos + k]] + mem[pos + k + 1..]
  {
  }

  /** `snprintf`: returns the length of the text, whatever the room. */
  method Snprintf(buf: array?<byte>, pos: nat, size: nat, text: seq<byte>) returns (n: nat)
    requires Room(buf, pos, size)
    modifies if buf == null then {} else {buf}
    ensures n == |text|
    ensures Mem(buf) == PrintedAt(old(Mem(buf)), pos, size, text)
  {
    if size > 0 {
      ghost var mem := buf[..];
      var k := 0;
      while k < |text| && k < size - 1
        invariant k <= |text| && k < size && |mem| == buf.Length
        invariant forall j | 0 <= j < k :: buf[pos + j] == text[j]
        invariant forall j | 0 <= j < buf.Length && !(pos <= j < pos + k) :: buf[j] == mem[j]
      {
        buf[pos + k] := text[k];
        k := k + 1;
      }
      buf[pos + k] := NUL;
      PrintedIs(mem, buf[..], pos, size, text, k);
    }
    n := |text|;
  }

  /** One `snprintf` and the update after it. */
  method Print(buf: array?<byte>, c: Cursor, text: seq<byte>, ghost job: Job, ghost ps: seq<Piece>) returns (c': Cursor)
    requires Room(buf, c.pos, c.size) && Printed(job, ps, Mem(buf), c)
    modifies if buf == null then {} else {buf}
    ensures Room(buf, c'.pos, c'.size) && Printed(job, ps + [Plain(text)], Mem(buf), c')
  {
    PrintedMore(job, ps, Mem(buf), c, [Plain(text)]);
    var n := Snprintf(buf, c.pos, c.size, text);
    assert Text([Plain(text)]) == text;
    assert Mem(buf) == Put(old(Mem(buf)), c.pos, c.size, [Plain(text)]);
    c' := Update(c, n);
  }

  // ----- the writers

  /** `oc_rep_to_json_tab` */
  method Tab(buf: array?<byte>, pos: nat, size: nat, depth: nat) returns (total: nat)
    requires Room(buf, pos, size)
    modifies if buf == null then {} else {buf}
    ensures total == |Text(Tabs(depth))|
    ensures Mem(buf) == Put(old(Mem(buf)), pos, size, Tabs(depth))
  {
    ghost var job := Job(Mem(buf), pos, size);
    var c := Cursor(pos, size, 0);
    NothingPrinted(job);
    hide Printed;
    var i := 0;
    while i < depth
      invariant i <= depth && Room(buf, c.pos, c.size)
      invariant Printed(job, Tabs(i), Mem(buf), c)
    {
      c := Print(buf, c, Ascii("  "), job, Tabs(i));
      i := i + 1;
    }
    total := Finish(c, job, Tabs(depth), Mem(buf));
  }

  /** `return total_char_printed` */
  method Finish(c: Cursor, ghost job: Job, ghost ps: seq<Piece>, ghost mem: seq<byte>) returns (total: nat)
    requires Printed(job, ps, mem, c)
    ensures total == |Text(ps)| && job.pos + job.size <= |job.mem| && mem == Put(job.mem, job.pos, job.size, ps)
  {
    total := c.total;
  }

  /** Up to the base64 text the memory is the old one, a quote and the text. */
  lemma QuoteBefore(mem: seq<byte>, mem1: seq<byte>, mem2: seq<byte>, pos: nat, size: nat, text: seq<byte>)
    requires pos + size <= |mem| && |text| + 2 < size
    requires mem1 == PrintedAt(mem, pos, size, [QUOTE]) && |mem2| == |mem1|
    requires mem2[pos + 1..pos + 1 + |text|] == text
    requires forall k | 0 <= k < pos + 1 :: mem2[k] == mem1[k]
    ensures mem2[..pos + 1 + |text|] == mem[..pos] + ([QUOTE] + text)
  {
    assert mem2[..pos + 1] == mem1[..pos + 1] == mem[..pos] + [QUOTE];
    assert mem2[..pos + 1 + |text|] == mem2[..pos + 1] + mem2[pos + 1..pos + 1 + |text|];
  }

  /** Behind the base64 text the memory is the old one but for one NUL. */
  lemma OldBehind(mem: seq<byte>, mem1: seq<byte>, mem2: seq<byte>, pos: nat, size: nat, end: nat)
    requires pos + size <= |mem| && pos + 1 < end <= pos + size && size > 1
    requires mem1 == PrintedAt(mem, pos, size, [QUOTE]) && |mem2| == |mem1|
    requires forall k | end <= k < |mem1| :: mem2[k] == mem1[k]
    ensures mem2[end..] == mem[end..]
  {
    assert mem1[pos + 2..] == mem[pos + 2..];
    forall k | end <= k < |mem| ensures mem2[k] == mem[k] {
      assert mem1[pos + 2..][k - pos - 2] == mem[pos + 2..][k - pos - 2];
    }
  }

  /** Quote, base64 text and quote, the second and third each over the byte the one before left as its NUL. */
  lemma QuotedFits(mem: seq<byte>, mem1: seq<byte>, mem2: seq<byte>, pos: nat, size: nat, text: seq<byte>)
    requires pos + size <= |mem| && |text| + 2 < size
    requires mem1 == PrintedAt(mem, pos, size, [QUOTE]) && |mem2| == |mem1|
    requires mem2[pos + 1..pos + 1 + |text|] == text
    requires forall k | 0 <= k < |mem1| && k != pos + 1 && !(pos + 1 <= k < pos + 1 + |text|) :: mem2[k] == mem1[k]
    ensures PrintedAt(mem2, pos + 1 + |text|, size - 1 - |text|, [QUOTE]) == PieceAt(mem, pos, size, Quoted(text))
  {
    hide PrintedAt, PieceAt;
    var n := pos + 1 + |text|;
    QuoteBefore(mem, mem1, mem2, pos, size, text);
    OldBehind(mem, mem1, mem2, pos, size, n + 2);
    ShortPrinted(mem2, n, size - 1 - |text|, [QUOTE]);
    ShortQuoted(mem, pos, size, text);
    QuotesJoin(mem[..pos], text, mem[n + 2..]);
  }

  /** What fits is written whole. */
  lemma ShortPrinted(mem: seq<byte>, pos: nat, size: nat, text: seq<byte>)
    requires pos + size <= |mem| && |text| < size
    ensures PrintedAt(mem, pos, size, text) == mem[..pos] + text + [NUL] + mem[pos + |text| + 1..]
  {
  }

  lemma ShortQuoted(mem: seq<byte>, pos: nat, size: nat, text: seq<byte>)
    requires pos + size <= |mem| && |text| + 2 < size
    ensures PieceAt(mem, pos, size, Quoted(text)) ==
              mem[..pos] + ([QUOTE] + text + [QUOTE]) + [NUL] + mem[pos + |text| + 3..]
  {
    ShortPrinted(mem, pos, size, [QUOTE] + text + [QUOTE]);
    hide PrintedAt;
  }

  lemma QuotesJoin(before: seq<byte>, text: seq<byte>, behind: seq<byte>)
    ensures before + ([QUOTE] + text) + [QUOTE] + [NUL] + behind == before + ([QUOTE] + text + [QUOTE]) + [NUL] + behind
  {
  }

  /** Nothing more is printed after the first quote. */
  lemma QuotedDoesNotFit(mem: seq<byte>, mem1: seq<byte>, end: nat, pos: nat, size: nat, text: seq<byte>)
    requires pos + size <= |mem| && |text| + 2 >= size && end <= |mem1|
    requires mem1 == PrintedAt(mem, pos, size, [QUOTE])
    ensures PrintedAt(mem1, end, 0, [QUOTE]) == PieceAt(mem, pos, size, Quoted(text))
  {
    assert |Full(Quoted(text))| == |text| + 2;
  }

  /** `oc_rep_to_json_base64_encoded_byte_string` */
  method Base64Text(buf: array?<byte>, pos: nat, size: nat, bytes: seq<byte>) returns (total: nat)
    requires Room(buf, pos, size)
    modifies if buf == null then {} else {buf}
    ensures total == |Text([BlobPiece(bytes)])|
    ensures Mem(buf) == Put(old(Mem(buf)), pos, size, [BlobPiece(bytes)])
  {
    ghost var mem := Mem(buf);
    var n := Snprintf(buf, pos, size, [QUOTE]);
    var c := Update(Cursor(pos, size, 0), n);
    c := Base64Body(buf, c, bytes, mem, pos, size);
    hide PrintedAt, Base64.Encoded;
    n := Snprintf(buf, c.pos, c.size, [QUOTE]);
    c := Update(c, n);
    total := c.total;
    assert Text([BlobPiece(bytes)]) == Full(BlobPiece(bytes));
    assert Mem(buf) == PieceAt(mem, pos, size, BlobPiece(bytes));
  }

  method Base64BufferSize(n: nat) returns (size: nat)
    ensures size == Base64.EncodedLength(n) + 1
  {
    size := n / 3 * 4;
    if n % 3 != 0 { size := size + 4; }
    size := size + 1;
  }

  /**
   Between the quotes: the whole base64 text if it fits with the closing quote and the NUL, else nothing more
   at all.
   */
  method Base64Body(buf: array?<byte>, c: Cursor, bytes: seq<byte>, ghost mem: seq<byte>, ghost pos: nat,
                    ghost size: nat)
    returns (c': Cursor)
    requires Room(buf, pos, size) && |Mem(buf)| == |mem| && pos + size <= |mem|
    requires Mem(buf) == PrintedAt(mem, pos, size, [QUOTE]) && c == Update(Cursor(pos, size, 0), 1)
    modifies if buf == null then {} else {buf}
    ensures Room(buf, c'.pos, c'.size) && |Mem(buf)| == |mem|
    ensures c'.total == 1 + |Base64.Encoded(bytes)|
    ensures PrintedAt(Mem(buf), c'.pos, c'.size, [QUOTE]) == PieceAt(mem, pos, size, BlobPiece(bytes))
  {
    hide Base64.Encoded, Base64.EncodedLength, PrintedAt, PieceAt, Full;
    ghost var mem1, text := Mem(buf), Base64.Encoded(bytes);
    var b64BufSize := Base64BufferSize(|bytes|);
    if c.size > b64BufSize {
      var outputLen := Base64.Encode(bytes, buf, c.pos, b64BufSize);
      c' := Update(c, outputLen);
      QuotedFits(mem, mem1, Mem(buf), pos, size, text);
    } else {
      c' := Cursor(c.pos + c.size, 0, c.total + (b64BufSize - 1));
      QuotedDoesNotFit(mem, mem1, c'.pos, pos, size, text);
    }
  }

  /** A base64 text and the update after it. */
  method PrintBlob(buf: array?<byte>, c: Cursor, bytes: seq<byte>, ghost job: Job, ghost ps: seq<Piece>)
    returns (c': Cursor)
    requires Room(buf, c.pos, c.size) && Printed(job, ps, Mem(buf), c)
    modifies if buf == null then {} else {buf}
    ensures Room(buf, c'.pos, c'.size) && Printed(job, ps + [BlobPiece(bytes)], Mem(buf), c')
  {
    PrintedMore(job, ps, Mem(buf), c, [BlobPiece(bytes)]);
    hide BlobPiece, Put, Text;
    var n := Base64Text(buf, c.pos, c.size, bytes);
    c' := Update(c, n);
  }

  /** Indentation, when printing prettily, and the update after it. */
  method PrintIndent(buf: array?<byte>, c: Cursor, pretty: bool, depth: nat, ghost job: Job, ghost ps: seq<Piece>)
    returns (c': Cursor)
    requires Room(buf, c.pos, c.size) && Printed(job, ps, Mem(buf), c)
    modifies if buf == null then {} else {buf}
    ensures Room(buf, c'.pos, c'.size) && Printed(job, ps + Indent(pretty, depth), Mem(buf), c')
  {
    c' := c;
    if pretty {
      PrintedMore(job, ps, Mem(buf), c, Tabs(depth));
      hide Put, Text;
      var n := Tab(buf, c.pos, c.size, depth);
      c' := Update(c, n);
    } else {
      assert ps + Indent(pretty, depth) == ps;
    }
  }

  method PrintNewLine(buf: array?<byte>, c: Cursor, pretty: bool, ghost job: Job, ghost ps: seq<Piece>)
    returns (c': Cursor)
    requires Room(buf, c.pos, c.size) && Printed(job, ps, Mem(buf), c)
    modifies if buf == null then {} else {buf}
    ensures Room(buf, c'.pos, c'.size) && Printed(job, ps + NewLine(pretty), Mem(buf), c')
  {
    hide Printed;
    c' := c;
    if pretty {
      c' := Print(buf, c, Ascii("\n"), job, ps);
    } else {
      assert ps + NewLine(pretty) == ps;
    }
  }

  /** A literal that has a long form for pretty printing. */
  method PrintEither(buf: array?<byte>, c: Cursor, pretty: bool, long: string, short: string, ghost job: Job,
                     ghost ps: seq<Piece>)
    returns (c': Cursor)
    requires Room(buf, c.pos, c.size) && Printed(job, ps, Mem(buf), c)
    modifies if buf == null then {} else {buf}
    ensures Room(buf, c'.pos, c'.size) && Printed(job, ps + [Either(pretty, long, short)], Mem(buf), c')
  {
    hide Printed;
    c' := Print(buf, c, if pretty then Ascii(long) else Ascii(short), job, ps);
  }

  method PrintKey(buf: array?<byte>, c: Cursor, name: seq<byte>, iname: int, pretty: bool, ghost job: Job,
                  ghost ps: seq<Piece>)
    returns (c': Cursor)
    requires Room(buf, c.pos, c.size) && Printed(job, ps, Mem(buf), c)
    modifies if buf == null then {} else {buf}
    ensures Room(buf, c'.pos, c'.size) && Printed(job, ps + KeyPieces(name, iname, pretty), Mem(buf), c')
  {
    hide Printed;
    var colon := Ascii(if pretty then "\" : " else "\":");
    c' := c;
    if |name| > 0 {
      c' := Print(buf, c, [QUOTE] + CString(name, NUL) + colon, job, ps);
    } else if iname >= 0 {
      c' := Print(buf, c, [QUOTE] + SignedDecimal(iname) + colon, job, ps);
    } else {
      assert ps + KeyPieces(name, iname, pretty) == ps;
    }
  }

  /** The loops of the number and boolean arrays. */
  method PrintRow(buf: array?<byte>, c: Cursor, items: seq<seq<byte>>, pretty: bool, ghost job: Job,
                  ghost ps: seq<Piece>)
    returns (c': Cursor)
    requires Room(buf, c.pos, c.size) && Printed(job, ps, Mem(buf), c)
    modifies if buf == null then {} else {buf}
    ensures Room(buf, c'.pos, c'.size) && Printed(job, ps + Row(items, pretty), Mem(buf), c')
  {
    hide Printed;
    c' := Print(buf, c, Ascii("["), job, ps);
    ghost var open := ps + [Lit("[")];
    assert open + [] == open;
    var i := 0;
    while i < |items|
      invariant i <= |items| && Room(buf, c'.pos, c'.size)
      invariant Printed(job, open + RowPieces(items, i, pretty), Mem(buf), c')
    {
      c' := PrintRowItem(buf, c', items, i, pretty, job, open);
      i := i + 1;
    }
    c' := Print(buf, c', Ascii("]"), job, open + RowPieces(items, |items|, pretty));
    Regroup(ps, [Lit("[")], RowPieces(items, |items|, pretty), [Lit("]")]);
  }

  lemma Regroup<T>(a: seq<T>, b: seq<T>, c: seq<T>, d: seq<T>)
    ensures a + b + c + d == a + (b + c + d)
  {
  }

  method PrintRowItem(buf: array?<byte>, c: Cursor, items: seq<seq<byte>>, i: nat, pretty: bool, ghost job: Job,
                      ghost open: seq<Piece>)
    returns (c': Cursor)
    requires i < |items|
    requires Room(buf, c.pos, c.size) && Printed(job, open + RowPieces(items, i, pretty), Mem(buf), c)
    modifies if buf == null then {} else {buf}
    ensures Room(buf, c'.pos, c'.size) && Printed(job, open + RowPieces(items, i + 1, pretty), Mem(buf), c')
  {
    hide Printed, Either;
    ghost var before, item := RowPieces(items, i, pretty), [Plain(items[i])];
    c' := Print(buf, c, items[i], job, open + before);
    if i < |items| - 1 {
      c' := PrintEither(buf, c', pretty, ", ", ",", job, open + before + item);
      Regroup(open, before, item, [Either(pretty, ", ", ",")]);
    } else {
      Regroup(open, before, item, []);
      assert open + before + item + [] == open + before + item;
    }
  }

  datatype Item = Chars(s: seq<byte>) | Bytes(b: seq<byte>)

  function ItemPiece(item: Item): Piece {
    match item case Chars(s) => StrPiece(s) case Bytes(b) => BlobPiece(b)
  }

  function ItemPieces(items: seq<Item>): (ps: seq<Piece>)
    ensures |ps| == |items|
  {
    seq(|items|, i requires 0 <= i < |items| => ItemPiece(items[i]))
  }

  /** The loops of the string and byte string arrays. */
  method PrintColumn(buf: array?<byte>, c: Cursor, items: seq<Item>, depth: nat, pretty: bool, ghost job: Job,
                     ghost ps: seq<Piece>)
    returns (c': Cursor)
    requires Room(buf, c.pos, c.size) && Printed(job, ps, Mem(buf), c)
    modifies if buf == null then {} else {buf}
    ensures Room(buf, c'.pos, c'.size) && Printed(job, ps + Column(ItemPieces(items), depth, pretty), Mem(buf), c')
  {
    hide Printed, Either, Indent, ItemPieces;
    ghost var pieces := ItemPieces(items);
    c' := PrintEither(buf, c, pretty, "[\n", "[", job, ps);
    ghost var head := [Either(pretty, "[\n", "[")];
    assert ps + head + [] == ps + head;
    var i := 0;
    while i < |items|
      invariant i <= |items| && Room(buf, c'.pos, c'.size)
      invariant Printed(job, ps + head + ColumnPieces(pieces, i, depth, pretty), Mem(buf), c')
    {
      c' := PrintColumnItem(buf, c', items, i, depth, pretty, job, ps + head);
      i := i + 1;
    }
    ghost var body, indent := ColumnPieces(pieces, |items|, depth, pretty), Indent(pretty, depth + 1);
    c' := PrintIndent(buf, c', pretty, depth + 1, job, ps + head + body);
    c' := Print(buf, c', Ascii("]"), job, ps + head + body + indent);
    Regroup(ps, head, body, indent);
    Regroup(ps, head + body, indent, [Lit("]")]);
    assert ps + head + body == ps + (head + body);
  }

  method PrintColumnItem(buf: array?<byte>, c: Cursor, items: seq<Item>, i: nat, depth: nat, pretty: bool,
                         ghost job: Job, ghost open: seq<Piece>)
    returns (c': Cursor)
    requires i < |items|
    requires Room(buf, c.pos, c.size)
        && Printed(job, open + ColumnPieces(ItemPieces(items), i, depth, pretty), Mem(buf), c)
    modifies if buf == null then {} else {buf}
    ensures Room(buf, c'.pos, c'.size)
    ensures Printed(job, open + ColumnPieces(ItemPieces(items), i + 1, depth, pretty), Mem(buf), c')
  {
    hide Printed, Either, Indent, NewLine;
    ghost var before, indent, item :=
        ColumnPieces(ItemPieces(items), i, depth, pretty), Indent(pretty, depth + 2), [ItemPiece(items[i])];
    c' := PrintIndent(buf, c, pretty, depth + 2, job, open + before);
    match items[i] {
      case Chars(s) => c' := Print(buf, c', [QUOTE] + CString(s, NUL) + [QUOTE], job, open + before + indent);
      case Bytes(b) => c' := PrintBlob(buf, c', b, job, open + before + indent);
    }
    ghost var end := if i < |items| - 1 then [Either(pretty, ",\n", ",")] else NewLine(pretty);
    if i < |items| - 1 {
      c' := PrintEither(buf, c', pretty, ",\n", ",", job, open + before + indent + item);
    } else {
      c' := PrintNewLine(buf, c', pretty, job, open + before + indent + item);
    }
    assert ColumnPieces(ItemPieces(items), i + 1, depth, pretty) == before + indent + item + end;
    Regroup(open, before, indent, item);
    Regroup(open, before + indent, item, end);
    assert open + before + indent == open + (before + indent);
  }

  /** `oc_rep_get_value`; a member without a name is looked up by its number, and finds itself. */
  method LookUp(rep: Rep) returns (v: Value)
    requires rep.Member? && LookedUp(rep.value) && BlobFound(rep)
    ensures v == ValueFound(rep) && LookedUp(v)
  {
    var key, at := CString(rep.name, NUL), rep;
    while at != End && !Answers(at, key, rep.value)
      invariant FindMember(at, key, rep.value) == FindMember(rep, key, rep.value)
      decreases at
    {
      at := at.next;
    }
    v := if at == End then Emptied(rep.value) else at.value;
  }

  /** A byte string or an array, once it has been found. */
  method PrintFound(buf: array?<byte>, c: Cursor, v: Value, depth: nat, pretty: bool, fmt: FloatFormat,
                    ghost job: Job, ghost ps: seq<Piece>)
    returns (c': Cursor)
    requires LookedUp(v)
    requires Room(buf, c.pos, c.size) && Printed(job, ps, Mem(buf), c)
    modifies if buf == null then {} else {buf}
    ensures Room(buf, c'.pos, c'.size) && Printed(job, ps + ValuePieces(v, depth, pretty, fmt), Mem(buf), c')
  {
    hide Printed, Row, Column, Either, Indent;
    match v {
      case Blob(bytes) => c' := PrintBlob(buf, c, bytes, job, ps);
      case IntArray(ints) =>
        c' := PrintRow(buf, c, seq(|ints|, i requires 0 <= i < |ints| => SignedDecimal(ints[i])), pretty, job, ps);
      case FloatArray(fs) =>
        c' := PrintRow(buf, c, seq(|fs|, i requires 0 <= i < |fs| => fmt(fs[i])), pretty, job, ps);
      case DoubleArray(ds) =>
        c' := PrintRow(buf, c, seq(|ds|, i requires 0 <= i < |ds| => fmt(ds[i])), pretty, job, ps);
      case BoolArray(bs) =>
        c' := PrintRow(buf, c, seq(|bs|, i requires 0 <= i < |bs| => BoolText(bs[i])), pretty, job, ps);
      case BlobArray(bs) =>
        var items := seq(|bs|, i requires 0 <= i < |bs| => Bytes(bs[i]));
        c' := PrintColumn(buf, c, items, depth, pretty, job, ps);
        assert ItemPieces(items) == seq(|bs|, i requires 0 <= i < |bs| => BlobPiece(bs[i]));
      case StrArray(ss) =>
        var items := seq(|ss|, i requires 0 <= i < |ss| => Chars(ss[i]));
        c' := PrintColumn(buf, c, items, depth, pretty, job, ps);
        assert ItemPieces(items) == seq(|ss|, i requires 0 <= i < |ss| => StrPiece(ss[i]));
    }
  }

  /** The value of a member: the `switch` of `oc_rep_to_json_format`. */
  method PrintValue(buf: array?<byte>, c: Cursor, rep: Rep, depth: nat, pretty: bool, fmt: FloatFormat,
                    ghost job: Job, ghost ps: seq<Piece>)
    returns (c': Cursor)
    requires rep.Member? && BlobsFound(rep)
    requires Room(buf, c.pos, c.size) && Printed(job, ps, Mem(buf), c)
    modifies if buf == null then {} else {buf}
    ensures Room(buf, c'.pos, c'.size)
        && Printed(job, ps + ValuePieces(AsFound(rep).value, depth, pretty, fmt), Mem(buf), c')
    decreases rep.value
  {
    hide Printed, Row, Column, Either, Indent, Pieces, ObjectsPieces, ValueFound;
    if LookedUp(rep.value) {
      var v := LookUp(rep);
      hide ValuePieces;
      c' := PrintFound(buf, c, v, depth, pretty, fmt, job, ps);
      return;
    }
    match rep.value {
      case Null => c' := Print(buf, c, Ascii("null"), job, ps);
      case Int(i) => c' := Print(buf, c, SignedDecimal(i), job, ps);
      case Float(f) => c' := Print(buf, c, fmt(f), job, ps);
      case Double(d) => c' := Print(buf, c, fmt(d), job, ps);
      case Bool(b) => c' := Print(buf, c, BoolText(b), job, ps);
      case Str(s) => c' := Print(buf, c, [QUOTE] + CString(s, NUL) + [QUOTE], job, ps);
      case Object(members) => c' := PrintObject(buf, c, members, depth, pretty, fmt, job, ps);
      case ObjectArray(objects) => c' := PrintObjectArray(buf, c, objects, depth, pretty, fmt, job, ps);
      case MixedArray(elements) => c' := PrintMixedArray(buf, c, elements, depth, pretty, fmt, job, ps);
      case Array =>
        c' := c;
        assert ps + [] == ps;
    }
  }

  /** A nested call of `oc_rep_to_json_format` and the update after it. */
  method PrintMembers(buf: array?<byte>, c: Cursor, rep: Rep, depth: nat, pretty: bool, fmt: FloatFormat,
                      ghost job: Job, ghost ps: seq<Piece>)
    returns (c': Cursor)
    requires BlobsFound(rep)
    requires Room(buf, c.pos, c.size) && Printed(job, ps, Mem(buf), c)
    modifies if buf == null then {} else {buf}
    ensures Room(buf, c'.pos, c'.size) && Printed(job, ps + Pieces(AsFound(rep), depth, pretty, fmt), Mem(buf), c')
    decreases rep, 2
  {
    PrintedMore(job, ps, Mem(buf), c, Pieces(AsFound(rep), depth, pretty, fmt));
    hide Put, Text, Pieces;
    var n := Format(rep, buf, c.pos, c.size, depth, pretty, fmt);
    c' := Update(c, n);
  }

  method PrintObject(buf: array?<byte>, c: Cursor, members: Rep, depth: nat, pretty: bool, fmt: FloatFormat,
                     ghost job: Job, ghost ps: seq<Piece>)
    returns (c': Cursor)
    requires BlobsFound(members)
    requires Room(buf, c.pos, c.size) && Printed(job, ps, Mem(buf), c)
    modifies if buf == null then {} else {buf}
    ensures Room(buf, c'.pos, c'.size)
    ensures Printed(job, ps + ValuePieces(Object(AsFound(members)), depth, pretty, fmt), Mem(buf), c')
    decreases members, 3
  {
    hide Printed, Either, Indent, Pieces;
    ghost var a, b, d := [Either(pretty, "{\n", "{")], Pieces(AsFound(members), depth + 1, pretty, fmt),
        Indent(pretty, depth + 1);
    c' := PrintEither(buf, c, pretty, "{\n", "{", job, ps);
    c' := PrintMembers(buf, c', members, depth + 1, pretty, fmt, job, ps + a);
    c' := PrintIndent(buf, c', pretty, depth + 1, job, ps + a + b);
    c' := Print(buf, c', Ascii("}"), job, ps + a + b + d);
    Regroup(ps, a, b, d);
    Regroup(ps, a + b, d, [Lit("}")]);
    assert ps + a + b == ps + (a + b);
  }

  method PrintObjectArray(buf: array?<byte>, c: Cursor, objects: Objects, depth: nat, pretty: bool, fmt: FloatFormat,
                          ghost job: Job, ghost ps: seq<Piece>)
    returns (c': Cursor)
    requires BlobsInObjects(objects)
    requires Room(buf, c.pos, c.size) && Printed(job, ps, Mem(buf), c)
    modifies if buf == null then {} else {buf}
    ensures Room(buf, c'.pos, c'.size)
    ensures Printed(job, ps + ValuePieces(ObjectArray(ObjectsFound(objects)), depth, pretty, fmt), Mem(buf), c')
    decreases objects, 4
  {
    hide Printed, NewLine, Indent, ObjectsPieces;
    ghost var a, b, d, e := [Lit("[")], NewLine(pretty), ObjectsPieces(ObjectsFound(objects), depth, pretty, fmt),
        Indent(pretty, depth + 2);
    c' := Print(buf, c, Ascii("["), job, ps);
    c' := PrintNewLine(buf, c', pretty, job, ps + a);
    c' := PrintObjects(buf, c', objects, depth, pretty, fmt, job, ps + a + b);
    c' := PrintIndent(buf, c', pretty, depth + 2, job, ps + a + b + d);
    c' := Print(buf, c', Ascii("}]"), job, ps + a + b + d + e);
    Regroup(ps, a, b, d);
    Regroup(ps, a + b, d, e);
    Regroup(ps, a + b + d, e, [Lit("}]")]);
    assert ps + a + b == ps + (a + b);
  }

  /** The `do` loop over an object array, from one object on. */
  method PrintObjects(buf: array?<byte>, c: Cursor, os: Objects, depth: nat, pretty: bool, fmt: FloatFormat,
                      ghost job: Job, ghost ps: seq<Piece>)
    returns (c': Cursor)
    requires BlobsInObjects(os)
    requires Room(buf, c.pos, c.size) && Printed(job, ps, Mem(buf), c)
    modifies if buf == null then {} else {buf}
    ensures Room(buf, c'.pos, c'.size)
        && Printed(job, ps + ObjectsPieces(ObjectsFound(os), depth, pretty, fmt), Mem(buf), c')
    decreases os, 3
  {
    hide Printed, Either, Indent, Pieces;
    ghost var indent, open := Indent(pretty, depth + 2), [Either(pretty, "{\n", "{")];
    ghost var body := Pieces(AsFound(os.item), depth + 2, pretty, fmt);
    c' := PrintIndent(buf, c, pretty, depth + 2, job, ps);
    c' := PrintEither(buf, c', pretty, "{\n", "{", job, ps + indent);
    c' := PrintMembers(buf, c', os.item, depth + 2, pretty, fmt, job, ps + indent + open);
    Regroup(ps, indent, open, body);
    ghost var one := indent + open + body;
    match os {
      case Last(_) =>
      case More(_, rest) =>
        c' := PrintIndent(buf, c', pretty, depth + 2, job, ps + one);
        c' := PrintEither(buf, c', pretty, "},\n", "},", job, ps + one + indent);
        ghost var sep := [Either(pretty, "},\n", "},")];
        Regroup(ps, one, indent, sep);
        c' := PrintObjects(buf, c', rest, depth, pretty, fmt, job, ps + (one + indent + sep));
        assert ps + (one + indent + sep) + ObjectsPieces(ObjectsFound(rest), depth, pretty, fmt) ==
          ps + (one + indent + sep + ObjectsPieces(ObjectsFound(rest), depth, pretty, fmt));
    }
  }

  method PrintMixedArray(buf: array?<byte>, c: Cursor, elements: Rep, depth: nat, pretty: bool, fmt: FloatFormat,
                         ghost job: Job, ghost ps: seq<Piece>)
    returns (c': Cursor)
    requires BlobsFound(elements)
    requires Room(buf, c.pos, c.size) && Printed(job, ps, Mem(buf), c)
    modifies if buf == null then {} else {buf}
    ensures Room(buf, c'.pos, c'.size)
    ensures Printed(job, ps + ValuePieces(MixedArray(AsFound(elements)), depth, pretty, fmt), Mem(buf), c')
    decreases elements, 3
  {
    hide Printed, NewLine, Indent, Pieces;
    ghost var a, b := [Lit("[")], NewLine(pretty && elements != End);
    ghost var d, e := Pieces(AsFound(elements), depth + 2, pretty, fmt), Indent(pretty, depth + 2);
    c' := Print(buf, c, Ascii("["), job, ps);
    c' := PrintNewLine(buf, c', pretty && elements != End, job, ps + a);
    c' := PrintMembers(buf, c', elements, depth + 2, pretty, fmt, job, ps + a + b);
    c' := PrintIndent(buf, c', pretty, depth + 2, job, ps + a + b + d);
    c' := Print(buf, c', Ascii("]"), job, ps + a + b + d + e);
    Regroup(ps, a, b, d);
    Regroup(ps, a + b, d, e);
    Regroup(ps, a + b + d, e, [Lit("]")]);
    assert ps + a + b == ps + (a + b);
  }

  /** One member of the list: one round of the loop of `oc_rep_to_json_format`. */
  method PrintMember(buf: array?<byte>, c: Cursor, rep: Rep, depth: nat, pretty: bool, fmt: FloatFormat,
                     ghost job: Job, ghost ps: seq<Piece>)
    returns (c': Cursor)
    requires rep.Member? && BlobsFound(rep)
    requires Room(buf, c.pos, c.size) && Printed(job, ps, Mem(buf), c)
    modifies if buf == null then {} else {buf}
    ensures Room(buf, c'.pos, c'.size)
        && Printed(job, ps + MemberPieces(AsFound(rep), depth, pretty, fmt), Mem(buf), c')
    decreases rep, 0
  {
    hide Printed, NewLine, Indent, KeyPieces, ValuePieces;
    ghost var a, b := Indent(pretty, depth + 1), KeyPieces(rep.name, rep.iname, pretty);
    ghost var d := ValuePieces(AsFound(rep).value, depth, pretty, fmt);
    ghost var e := if rep.next == End then [] else [Lit(",")];
    c' := PrintIndent(buf, c, pretty, depth + 1, job, ps);
    c' := PrintKey(buf, c', rep.name, rep.iname, pretty, job, ps + a);
    c' := PrintValue(buf, c', rep, depth, pretty, fmt, job, ps + a + b);
    if rep.next != End {
      c' := Print(buf, c', Ascii(","), job, ps + a + b + d);
    } else {
      assert ps + a + b + d + e == ps + a + b + d;
    }
    c' := PrintNewLine(buf, c', pretty, job, ps + a + b + d + e);
    Regroup(ps, a, b, d);
    Regroup(ps, a + b, d, e);
    Regroup(ps, a + b + d, e, NewLine(pretty));
    assert ps + a + b == ps + (a + b);
  }

  lemma MemberMoves(ps: seq<Piece>, at: Rep, depth: nat, pretty: bool, fmt: FloatFormat)
    requires at != End
    ensures ps + MemberPieces(at, depth, pretty, fmt) + Pieces(at.next, depth, pretty, fmt)
        == ps + Pieces(at, depth, pretty, fmt)
  {
    hide MemberPieces;
  }

  lemma NoMemberLeft(ps: seq<Piece>, depth: nat, pretty: bool, fmt: FloatFormat)
    ensures ps + Pieces(End, depth, pretty, fmt) == ps
  {
  }

  /** `oc_rep_to_json_format` */
  method Format(rep: Rep, buf: array?<byte>, pos: nat, size: nat, depth: nat, pretty: bool, fmt: FloatFormat)
    returns (total: nat)
    requires BlobsFound(rep) && Room(buf, pos, size)
    modifies if buf == null then {} else {buf}
    ensures total == |Text(Pieces(AsFound(rep), depth, pretty, fmt))|
    ensures Mem(buf) == Put(old(Mem(buf)), pos, size, Pieces(AsFound(rep), depth, pretty, fmt))
    decreases rep, 1
  {
    ghost var job, all := Job(Mem(buf), pos, size), Pieces(AsFound(rep), depth, pretty, fmt);
    var c := Cursor(pos, size, 0);
    NothingPrinted(job);
    hide Printed, MemberPieces, Pieces, Text, Put;
    var at := rep;
    ghost var ps: seq<Piece> := [];
    assert ps + all == all;
    while at != End
      invariant (at == rep || at < rep) && BlobsFound(at)
      invariant Room(buf, c.pos, c.size) && Printed(job, ps, Mem(buf), c)
      invariant ps + Pieces(AsFound(at), depth, pretty, fmt) == all
      decreases at
    {
      c := PrintMember(buf, c, at, depth, pretty, fmt, job, ps);
      MemberMoves(ps, AsFound(at), depth, pretty, fmt);
      ps := ps + MemberPieces(AsFound(at), depth, pretty, fmt);
      at := at.next;
    }
    NoMemberLeft(ps, depth, pretty, fmt);
    total := Finish(c, job, ps, Mem(buf));
  }

  /** `oc_rep_to_json` */
  method ToJson(rep: Rep, buf: array?<byte>, size: nat, pretty: bool, fmt: FloatFormat) returns (total: nat)
    requires BlobsFound(rep) && Room(buf, 0, size)
    modifies if buf == null then {} else {buf}
    ensures total == |Text(Document(AsFound(rep), pretty, fmt))|
    ensures Mem(buf) == Put(old(Mem(buf)), 0, size, Document(AsFound(rep), pretty, fmt))
  {
    ghost var job := Job(Mem(buf), 0, size);
    var c := Cursor(0, size, 0);
    NothingPrinted(job);
    hide Printed, Either, Pieces, Text, Put, AsFound, BlobsFound;
    var objectArray := rep.Member? && rep.value.Object? && |rep.name| == 0;
    ghost var a := [if objectArray then Either(pretty, "[\n", "[") else Either(pretty, "{\n", "{")];
    if objectArray {
      c := PrintEither(buf, c, pretty, "[\n", "[", job, []);
    } else {
      c := PrintEither(buf, c, pretty, "{\n", "{", job, []);
    }
    assert [] + a == a;
    ghost var b := Pieces(AsFound(rep), 0, pretty, fmt);
    c := PrintMembers(buf, c, rep, 0, pretty, fmt, job, a);
    ghost var d := [if objectArray then Either(pretty, "]\n", "]") else Either(pretty, "}\n", "}")];
    if objectArray {
      c := PrintEither(buf, c, pretty, "]\n", "]", job, a + b);
    } else {
      c := PrintEither(buf, c, pretty, "}\n", "}", job, a + b);
    }
    TopArrayFound(rep);
    assert a + b + d == Document(AsFound(rep), pretty, fmt);
    total := Finish(c, job, a + b + d, Mem(buf));
  }

  /** The use `oc_print_rep_as_json` makes of it: measured with no buffer, then written whole. */
  method PrintRepAsJson(rep: Rep, pretty: bool, fmt: FloatFormat) returns (json: array<byte>)
    requires BlobsFound(rep)
    ensures fresh(json)
    ensures json[..] == Text(Document(AsFound(rep), pretty, fmt)) + [0]
  {
    hide Document, Text, Put, AsFound, BlobsFound;
    var size := ToJson(rep, null, 0, pretty, fmt);
    json := new byte[size + 1](i => NUL);
    ghost var mem := json[..];
    var again := ToJson(rep, json, size + 1, pretty, fmt);
    DocumentShown(mem, size + 1, AsFound(rep), pretty, fmt);
  }

  lemma DocumentNotEmpty(rep: Rep, pretty: bool, fmt: FloatFormat)
    ensures Document(rep, pretty, fmt) != [] && Text(Document(rep, pretty, fmt)) != []
  {
    var ps := Document(rep, pretty, fmt);
    assert ps[0] in {Lit("[\n"), Lit("["), Lit("{\n"), Lit("{")};
  }

  /**
   For every representation and every buffer: the text is cut after `Kept` characters and terminated,
   bytes behind the NUL keep their values, and nothing is cut exactly when the returned length is below
   the size of the buffer.
   */
  lemma DocumentShown(mem: seq<byte>, size: nat, rep: Rep, pretty: bool, fmt: FloatFormat)
    requires 0 < size <= |mem|
    ensures
      var ps := Document(rep, pretty, fmt);
      var text, k := Text(ps), Kept(size, ps);
      && k <= |text| && k < size
      && Put(mem, 0, size, ps) == text[..k] + [0] + mem[k + 1..]
      && (k == |text| <==> |text| < size)
  {
    var ps := Document(rep, pretty, fmt);
    DocumentNotEmpty(rep, pretty, fmt);
    hide Document, Text, Put, Kept;
    PutShowsPrefix(mem, 0, size, ps);
  }

  /** Of a base64 text nothing at all is left in the buffer unless it is there to its closing quote. */
  lemma {:induction false} Base64WholeOrNone(size: nat, ps: seq<Piece>, j: nat)
    requires j < |ps| && ps[j].Quoted?
    ensures
      var before := |Text(ps[..j])|;
      Kept(size, ps) <= before + 1 || before + |Full(ps[j])| <= Kept(size, ps)
    decreases |ps|
  {
    if j == 0 {
      assert ps[..0] == [];
      hide Full;
    } else {
      var n := |Full(ps[0])|;
      assert ps[..j][1..] == ps[1..][..j - 1] && ps[..j][0] == ps[0];
      hide Full;
      if n < size { Base64WholeOrNone(size - n, ps[1..], j - 1); }
    }
  }
}
