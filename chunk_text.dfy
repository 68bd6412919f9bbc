/** The overlapping character-window chunker: every page is stripped, then
    cut into windows of `chunkSize` characters whose starts are
    `chunkSize - overlap` apart; every window becomes one `Segment`, and the
    `chunkId` counter runs over the whole document. */
module ChunkText {
  import opened PyBuiltins

  /** The chunker's default window width and overlap. */
  const DefaultChunkSize: int := 500
  const DefaultOverlap: int := 100

  /** One chunk record: `{doc_id, page_number, chunk_id, text}`. */
  datatype Segment = Segment(docId: string, pageNumber: int, chunkId: int, text: string)

  /** The chunker raises nothing; its only failure is that the window loop
      never ends. `Diverges(p)` stands for that endless loop, on page `p`. */
  datatype ChunkError = Diverges(pageNumber: int)

  // ---------------------------------------------------------------------
  // Windows of one stripped page
  // ---------------------------------------------------------------------

  /** The window cut at `start`: `text[start:end]` with
      `end = min(start + chunkSize, len(text))`. */
  function Window(t: string, chunkSize: int, start: int): (w: string)
    ensures |w| <= |t|
  {
    Slice(t, start, Min(start + chunkSize, |t|))
  }

  /** The windows the loop cuts from offset `start` on, `step` apart, until
      `start` reaches the end of the page. */
  function WindowsFrom(t: string, chunkSize: int, step: int, start: nat): seq<string>
    requires step > 0
    decreases |t| - start
  {
    if start < |t| then [Window(t, chunkSize, start)] + WindowsFrom(t, chunkSize, step, start + step)
    else []
  }

  /** The window loop never ends on a non-empty page when its step is not
      positive; it is not entered at all on an empty page. */
  predicate PageTerminates(t: string, step: int)
  {
    step > 0 || t == []
  }

  /** All windows of one stripped page, from offset 0. */
  function PageWindows(t: string, chunkSize: int, step: int): seq<string>
    requires PageTerminates(t, step)
  {
    if t == [] then [] else WindowsFrom(t, chunkSize, step, 0)
  }

  /** Where window `j` from `start` begins: `j` steps past `start`, counted
      the way the loop counts them (see `OffsetIs` for the closed form). */
  function Offset(start: int, step: int, j: nat): int
    decreases j
  {
    if j == 0 then start else Offset(start + step, step, j - 1)
  }

  /** `j` steps of `step` from `start` end at `start + j * step`. */
  lemma {:induction false} OffsetIs(start: int, step: int, j: nat)
    ensures Offset(start, step, j) == start + j * step
    decreases j
  {
    if j > 0 {
      OffsetIs(start + step, step, j - 1);
      StepShift(start, step, j);
    }
  }

  lemma StepShift(start: int, step: int, j: int)
    ensures start + step + (j - 1) * step == start + j * step
  {
  }

  /** Window `j` from `start` begins `j` steps past `start`, inside the page. */
  lemma {:induction false} WindowsFromAt(t: string, chunkSize: int, step: int, start: nat, j: nat)
    requires step > 0
    requires j < |WindowsFrom(t, chunkSize, step, start)|
    ensures Offset(start, step, j) < |t|
    ensures WindowsFrom(t, chunkSize, step, start)[j] == Window(t, chunkSize, Offset(start, step, j))
    decreases j
  {
    var rest := WindowsFrom(t, chunkSize, step, start + step);
    assert WindowsFrom(t, chunkSize, step, start) == [Window(t, chunkSize, start)] + rest;
    if j > 0 {
      WindowsFromAt(t, chunkSize, step, start + step, j - 1);
    }
  }

  /** Every step that begins inside the page gets its window. */
  lemma {:induction false} WindowsFromReach(t: string, chunkSize: int, step: int, start: nat, j: nat)
    requires step > 0
    requires Offset(start, step, j) < |t|
    ensures j < |WindowsFrom(t, chunkSize, step, start)|
    decreases j
  {
    if j > 0 {
      WindowsFromReach(t, chunkSize, step, start + step, j - 1);
      assert |WindowsFrom(t, chunkSize, step, start)| == 1 + |WindowsFrom(t, chunkSize, step, start + step)|;
    }
  }

  /** The number of windows from `start` is the least `c` whose `c`-th step
      lands at or past the end of the page. */
  lemma {:induction false} WindowsFromCount(t: string, chunkSize: int, step: int, start: nat)
    requires step > 0
    ensures Offset(start, step, |WindowsFrom(t, chunkSize, step, start)|) >= |t|
    ensures |WindowsFrom(t, chunkSize, step, start)| > 0 ==>
      Offset(start, step, |WindowsFrom(t, chunkSize, step, start)| - 1) < |t|
    decreases |t| - start
  {
    if start < |t| {
      var rest := WindowsFrom(t, chunkSize, step, start + step);
      assert WindowsFrom(t, chunkSize, step, start) == [Window(t, chunkSize, start)] + rest;
      WindowsFromCount(t, chunkSize, step, start + step);
    }
  }

  /** `c == ceil(n / step)` for the `c` that `WindowsFromCount` describes. */
  lemma CeilDiv(n: nat, step: int, c: nat)
    requires step > 0 && n > 0
    requires c * step >= n && (c - 1) * step < n
    ensures c == (n + step - 1) / step
  {
    var q := (n + step - 1) / step;
    var r := (n + step - 1) % step;
    assert n + step - 1 == q * step + r && 0 <= r < step;
    if c < q {
      assert c + 1 <= q;
      MulLe(c + 1, q, step);
      assert false;
    } else if c > q {
      assert q + 1 <= c;
      MulLe(q + 1, c, step);
      assert false;
    }
  }

  lemma MulLe(a: int, b: int, k: int)
    requires a <= b && k > 0
    ensures a * k <= b * k
  {
    assert b * k - a * k == (b - a) * k;
  }

  lemma DivBounds(i: nat, step: int)
    requires step > 0
    ensures 0 <= i / step
    ensures (i / step) * step <= i < (i / step) * step + step
  {
    assert i == (i / step) * step + i % step;
  }

  /** A stripped page of length `L > 0` gives `ceil(L / step)` windows, and
      only an empty page gives none. */
  lemma PageWindowCount(t: string, chunkSize: int, step: int)
    requires PageTerminates(t, step)
    ensures |PageWindows(t, chunkSize, step)| == 0 <==> t == []
    ensures t != [] ==> |PageWindows(t, chunkSize, step)| == (|t| + step - 1) / step
  {
    if t != [] {
      WindowsFromCount(t, chunkSize, step, 0);
      var c := |PageWindows(t, chunkSize, step)|;
      OffsetIs(0, step, c);
      OffsetIs(0, step, c - 1);
      CeilDiv(|t|, step, c);
    }
  }

  /** Window `j` of a page is `t[j*step : min(j*step + chunkSize, |t|)]`;
      it starts inside the page. */
  lemma PageWindowAt(t: string, chunkSize: int, step: int, j: nat)
    requires PageTerminates(t, step)
    requires j < |PageWindows(t, chunkSize, step)|
    ensures j * step < |t|
    ensures PageWindows(t, chunkSize, step)[j] == Slice(t, j * step, Min(j * step + chunkSize, |t|))
  {
    WindowsFromAt(t, chunkSize, step, 0, j);
    OffsetIs(0, step, j);
  }

  /** For a non-negative `chunkSize`, a window is a contiguous piece of the
      page that begins at its start offset and holds at most `chunkSize`
      characters: exactly `chunkSize`, or what is left of the page. */
  lemma WindowShape(t: string, chunkSize: int, start: int)
    requires chunkSize >= 0 && 0 <= start < |t|
    ensures var w := Window(t, chunkSize, start);
      |w| == Min(chunkSize, |t| - start) &&
      start + |w| <= |t| &&
      w == t[start..start + |w|]
  {
  }

  /** Whatever `chunkSize` is, a window is the piece of the page that
      begins at its start offset (a negative `chunkSize` makes Python's
      slice count its end from the back of the page). */
  lemma WindowPiece(t: string, chunkSize: int, start: int)
    requires 0 <= start < |t|
    ensures start + |Window(t, chunkSize, start)| <= |t|
    ensures Window(t, chunkSize, start) == t[start..start + |Window(t, chunkSize, start)|]
  {
  }

  /** Every window of a page is the piece of the page that begins at
      `j * step`, and for a non-negative `chunkSize` it holds at most
      `chunkSize` characters. */
  lemma PageWindowBounded(t: string, chunkSize: int, step: int, j: nat)
    requires PageTerminates(t, step)
    requires j < |PageWindows(t, chunkSize, step)|
    ensures j * step + |PageWindows(t, chunkSize, step)[j]| <= |t|
    ensures PageWindows(t, chunkSize, step)[j] == t[j * step..j * step + |PageWindows(t, chunkSize, step)[j]|]
    ensures chunkSize >= 0 ==> |PageWindows(t, chunkSize, step)[j]| <= chunkSize
  {
    var start := j * step;
    assert step > 0 && t != [];
    MulLe(0, j, step);
    assert start < |t| && PageWindows(t, chunkSize, step)[j] == Window(t, chunkSize, start) by {
      PageWindowAt(t, chunkSize, step, j);
    }
    WindowPiece(t, chunkSize, start);
    if chunkSize >= 0 {
      WindowShape(t, chunkSize, start);
    }
  }

  /** With `0 <= overlap < chunkSize` (so `0 < step <= chunkSize`), every
      character of the page lies in window `i / step`. */
  lemma PageCoverage(t: string, chunkSize: int, step: int, i: nat)
    requires 0 < step <= chunkSize
    requires i < |t|
    ensures i / step < |PageWindows(t, chunkSize, step)|
    ensures var w := PageWindows(t, chunkSize, step)[i / step];
      (i / step) * step <= i < (i / step) * step + |w|
  {
    var j := i / step;
    var start := j * step;
    assert 0 <= j && start <= i < start + step by {
      DivBounds(i, step);
    }
    MulLe(0, j, step);
    assert j < |PageWindows(t, chunkSize, step)| by {
      OffsetIs(0, step, j);
      WindowsFromReach(t, chunkSize, step, 0, j);
    }
    assert PageWindows(t, chunkSize, step)[j] == Window(t, chunkSize, start) by {
      PageWindowAt(t, chunkSize, step, j);
    }
    WindowShape(t, chunkSize, start);
  }

  /** The first window of a non-empty page no longer than `chunkSize` is the
      whole page; it is the only window exactly when the page is no longer
      than the step. Longer steps leave tail windows, each a suffix of the
      page. */
  lemma ShortPage(t: string, chunkSize: int, step: int)
    requires 0 < |t| <= chunkSize && step > 0
    ensures PageWindows(t, chunkSize, step)[0] == t
    ensures PageWindows(t, chunkSize, step) == [t] <==> |t| <= step
  {
    var w := PageWindows(t, chunkSize, step);
    assert Window(t, chunkSize, 0) == t[0..|t|] == t;
    assert w == [t] + WindowsFrom(t, chunkSize, step, step);
    if step < |t| {
      assert |w| > 1;
    }
  }

  /** The worked example: `"abcdefghij"` with width 4 and overlap 1. */
  lemma WindowsExample()
    ensures PageWindows("abcdefghij", 4, 4 - 1) == ["abcd", "defg", "ghij", "j"]
  {
    var t := "abcdefghij";
    assert Window(t, 4, 9) == t[9..10] == "j";
    assert Window(t, 4, 6) == t[6..10] == "ghij";
    assert Window(t, 4, 3) == t[3..7] == "defg";
    assert Window(t, 4, 0) == t[0..4] == "abcd";
    assert WindowsFrom(t, 4, 3, 9) == ["j"];
    assert WindowsFrom(t, 4, 3, 6) == ["ghij", "j"];
    assert WindowsFrom(t, 4, 3, 3) == ["defg", "ghij", "j"];
  }

  /** A page no longer than the width but longer than the step: five
      characters, width 10, overlap 8 give the whole page and then two of
      its suffixes. */
  lemma ShortPageExample()
    ensures PageWindows("abcde", 10, 10 - 8) == ["abcde", "cde", "e"]
  {
    var t := "abcde";
    assert Window(t, 10, 4) == t[4..5] == "e";
    assert Window(t, 10, 2) == t[2..5] == "cde";
    assert Window(t, 10, 0) == t[0..5] == "abcde";
    assert WindowsFrom(t, 10, 2, 4) == ["e"];
    assert WindowsFrom(t, 10, 2, 2) == ["cde", "e"];
  }

  // ---------------------------------------------------------------------
  // The whole document
  // ---------------------------------------------------------------------

  /** The records cut from one page, numbered on from `firstId`. */
  function PageSegments(docId: string, pageNumber: int, texts: seq<string>, firstId: int): (r: seq<Segment>)
    ensures |r| == |texts|
  {
    seq(|texts|, j requires 0 <= j < |texts| => Segment(docId, pageNumber, firstId + j, texts[j]))
  }

  /** Records emitted earlier, followed by whatever the rest produces. */
  function Prepend(done: seq<Segment>, rest: Result<seq<Segment>, ChunkError>): Result<seq<Segment>, ChunkError>
  {
    match rest
    case Ok(more) => Ok(done + more)
    case Err(e) => Err(e)
  }

  lemma PrependNothing(rest: Result<seq<Segment>, ChunkError>)
    ensures Prepend([], rest) == rest
  {
    if rest.Ok? {
      assert [] + rest.value == rest.value;
    }
  }

  lemma PrependTwice(a: seq<Segment>, b: seq<Segment>, rest: Result<seq<Segment>, ChunkError>)
    ensures Prepend(a, Prepend(b, rest)) == Prepend(a + b, rest)
  {
    if rest.Ok? {
      assert a + (b + rest.value) == (a + b) + rest.value;
    }
  }

  /** What the chunker produces for `pages` when the first of them is page
      `pageNumber` and the counter stands at `firstId`. */
  function ChunkPages(docId: string, pages: seq<string>, chunkSize: int, overlap: int,
                      pageNumber: int, firstId: int): Result<seq<Segment>, ChunkError>
    decreases |pages|
  {
    if pages == [] then Ok([])
    else
      var t := Strip(pages[0]);
      var step := chunkSize - overlap;
      if !PageTerminates(t, step) then Err(Diverges(pageNumber))
      else
        var here := PageSegments(docId, pageNumber, PageWindows(t, chunkSize, step), firstId);
        Prepend(here, ChunkPages(docId, pages[1..], chunkSize, overlap, pageNumber + 1, firstId + |here|))
  }

  lemma PageSegmentsSnoc(docId: string, pageNumber: int, texts: seq<string>, text: string, firstId: int)
    ensures PageSegments(docId, pageNumber, texts + [text], firstId)
         == PageSegments(docId, pageNumber, texts, firstId) + [Segment(docId, pageNumber, firstId + |texts|, text)]
  {
  }

  /** One turn of the page loop: the records of page `i + 1` follow those
      of the pages before it. */
  lemma ChunkPagesUnfold(docId: string, pages: seq<string>, chunkSize: int, overlap: int,
                         i: nat, done: seq<Segment>, next: seq<Segment>)
    requires i < |pages| && PageTerminates(Strip(pages[i]), chunkSize - overlap)
    requires next == done + PageSegments(docId, i + 1, PageWindows(Strip(pages[i]), chunkSize, chunkSize - overlap), |done|)
    ensures Prepend(done, ChunkPages(docId, pages[i..], chunkSize, overlap, i + 1, |done|))
         == Prepend(next, ChunkPages(docId, pages[i + 1..], chunkSize, overlap, i + 2, |next|))
  {
    var here := PageSegments(docId, i + 1, PageWindows(Strip(pages[i]), chunkSize, chunkSize - overlap), |done|);
    var rest := ChunkPages(docId, pages[i + 1..], chunkSize, overlap, i + 2, |next|);
    assert ChunkPages(docId, pages[i..], chunkSize, overlap, i + 1, |done|) == Prepend(here, rest) by {
      var q := pages[i..];
      assert q[0] == pages[i] && q[1..] == pages[i + 1..];
      ChunkPagesHead(docId, q, chunkSize, overlap, i + 1, |done|);
    }
    PrependTwice(done, here, rest);
  }

  /** The records of the first page come first, then those of the rest. */
  lemma ChunkPagesHead(docId: string, pages: seq<string>, chunkSize: int, overlap: int,
                       pageNumber: int, firstId: int)
    requires pages != [] && PageTerminates(Strip(pages[0]), chunkSize - overlap)
    ensures var ws := PageWindows(Strip(pages[0]), chunkSize, chunkSize - overlap);
      ChunkPages(docId, pages, chunkSize, overlap, pageNumber, firstId)
      == Prepend(PageSegments(docId, pageNumber, ws, firstId),
                 ChunkPages(docId, pages[1..], chunkSize, overlap, pageNumber + 1, firstId + |ws|))
  {
  }

  /** The chunks of a whole document: pages numbered from 1, counter from 0. */
  function ExpectedChunks(docId: string, pages: seq<string>, chunkSize: int, overlap: int): Result<seq<Segment>, ChunkError>
  {
    ChunkPages(docId, pages, chunkSize, overlap, 1, 0)
  }

  /** The chunker finishes on `pages` when its step is positive or every
      page strips to nothing. */
  predicate Terminates(pages: seq<string>, step: int)
  {
    forall p :: 0 <= p < |pages| ==> PageTerminates(Strip(pages[p]), step)
  }

  /** The position of the first page that is not blank after stripping,
      or `|pages|` when there is none. */
  function FirstNonBlank(pages: seq<string>): (n: nat)
    ensures n <= |pages|
    ensures forall q :: 0 <= q < n ==> Strip(pages[q]) == []
    ensures n < |pages| ==> Strip(pages[n]) != []
  {
    if pages == [] then 0
    else if Strip(pages[0]) != [] then 0
    else 1 + FirstNonBlank(pages[1..])
  }

  /** The chunker stops unless its step is not positive and some page is
      not blank; then it loops on the first such page. */
  lemma {:induction false} ChunkPagesDiverge(docId: string, pages: seq<string>, chunkSize: int, overlap: int,
                                             pageNumber: int, firstId: int)
    ensures var r := ChunkPages(docId, pages, chunkSize, overlap, pageNumber, firstId);
      (r.Err? <==> chunkSize - overlap <= 0 && FirstNonBlank(pages) < |pages|) &&
      (r.Err? ==> r.error == Diverges(pageNumber + FirstNonBlank(pages)))
    decreases |pages|
  {
    if pages != [] {
      var step := chunkSize - overlap;
      var t := Strip(pages[0]);
      if PageTerminates(t, step) {
        var here := PageSegments(docId, pageNumber, PageWindows(t, chunkSize, step), firstId);
        ChunkPagesDiverge(docId, pages[1..], chunkSize, overlap, pageNumber + 1, firstId + |here|);
      }
    }
  }

  /** `Terminates` says that no page makes the window loop spin. */
  lemma TerminatesIff(pages: seq<string>, step: int)
    ensures Terminates(pages, step) <==> step > 0 || FirstNonBlank(pages) == |pages|
  {
  }

  /** The windows of every page, after stripping. */
  function AllWindows(pages: seq<string>, chunkSize: int, step: int): (ws: seq<seq<string>>)
    requires Terminates(pages, step)
    ensures |ws| == |pages|
  {
    seq(|pages|, p requires 0 <= p < |pages| => PageWindows(Strip(pages[p]), chunkSize, step))
  }

  /** The records for the windows `ws` of consecutive pages, the first of
      them page `pageNumber`, numbered on from `firstId`. */
  function Records(docId: string, ws: seq<seq<string>>, pageNumber: int, firstId: int): seq<Segment>
    decreases |ws|
  {
    if ws == [] then []
    else PageSegments(docId, pageNumber, ws[0], firstId) + Records(docId, ws[1..], pageNumber + 1, firstId + |ws[0]|)
  }

  /** How many windows the pages before page `p` (0-based) hold. */
  function Before(ws: seq<seq<string>>, p: nat): nat
    requires p <= |ws|
  {
    if p == 0 then 0 else |ws[0]| + Before(ws[1..], p - 1)
  }

  /** `ws` lists the windows of every page of `pages`, each page's loop
      ending. */
  predicate WindowsOf(ws: seq<seq<string>>, pages: seq<string>, chunkSize: int, step: int)
  {
    |ws| == |pages| &&
    forall p :: 0 <= p < |pages| ==>
      PageTerminates(Strip(pages[p]), step) && ws[p] == PageWindows(Strip(pages[p]), chunkSize, step)
  }

  /** When it terminates, the chunker emits the records of every page's
      windows in page order. */
  lemma ChunkPagesIsRecords(docId: string, pages: seq<string>, chunkSize: int, overlap: int,
                            pageNumber: int, firstId: int)
    requires Terminates(pages, chunkSize - overlap)
    ensures ChunkPages(docId, pages, chunkSize, overlap, pageNumber, firstId)
         == Ok(Records(docId, AllWindows(pages, chunkSize, chunkSize - overlap), pageNumber, firstId))
  {
    ChunkPagesAreRecords(docId, pages, chunkSize, overlap, AllWindows(pages, chunkSize, chunkSize - overlap),
                         pageNumber, firstId);
  }

  lemma {:induction false} ChunkPagesAreRecords(docId: string, pages: seq<string>, chunkSize: int, overlap: int,
                                                ws: seq<seq<string>>, pageNumber: int, firstId: int)
    requires WindowsOf(ws, pages, chunkSize, chunkSize - overlap)
    ensures ChunkPages(docId, pages, chunkSize, overlap, pageNumber, firstId)
         == Ok(Records(docId, ws, pageNumber, firstId))
    decreases |pages|
  {
    if pages != [] {
      var step := chunkSize - overlap;
      assert WindowsOf(ws[1..], pages[1..], chunkSize, step) by {
        forall p | 0 <= p < |pages| - 1
          ensures PageTerminates(Strip(pages[1..][p]), step) &&
                  ws[1..][p] == PageWindows(Strip(pages[1..][p]), chunkSize, step)
        {
          assert pages[1..][p] == pages[p + 1];
        }
      }
      var w0 := ws[0];
      assert PageTerminates(Strip(pages[0]), step) && w0 == PageWindows(Strip(pages[0]), chunkSize, step);
      ChunkPagesHead(docId, pages, chunkSize, overlap, pageNumber, firstId);
      ChunkPagesAreRecords(docId, pages[1..], chunkSize, overlap, ws[1..], pageNumber + 1, firstId + |w0|);
      var rest := Records(docId, ws[1..], pageNumber + 1, firstId + |w0|);
      assert Records(docId, ws, pageNumber, firstId) == PageSegments(docId, pageNumber, w0, firstId) + rest;
    }
  }

  /** Every record carries the document id, a page number from the range
      given, and the counter value of its position; records are in page
      order. */
  lemma {:induction false} RecordsFields(docId: string, ws: seq<seq<string>>, pageNumber: int, firstId: int)
    ensures forall k :: 0 <= k < |Records(docId, ws, pageNumber, firstId)| ==>
      var seg := Records(docId, ws, pageNumber, firstId)[k];
      seg.chunkId == firstId + k && seg.docId == docId && pageNumber <= seg.pageNumber < pageNumber + |ws|
    ensures forall k, l :: 0 <= k < l < |Records(docId, ws, pageNumber, firstId)| ==>
      Records(docId, ws, pageNumber, firstId)[k].pageNumber <= Records(docId, ws, pageNumber, firstId)[l].pageNumber
    decreases |ws|
  {
    if ws != [] {
      var r := Records(docId, ws, pageNumber, firstId);
      var here := PageSegments(docId, pageNumber, ws[0], firstId);
      var rest := Records(docId, ws[1..], pageNumber + 1, firstId + |ws[0]|);
      RecordsFields(docId, ws[1..], pageNumber + 1, firstId + |ws[0]|);
      assert r == here + rest;
      forall k | 0 <= k < |r|
        ensures r[k].chunkId == firstId + k && r[k].docId == docId
        ensures pageNumber <= r[k].pageNumber < pageNumber + |ws|
      {
        if k >= |here| {
          assert r[k] == rest[k - |here|];
        } else {
          assert r[k] == here[k];
        }
      }
      forall k, l | 0 <= k < l < |r|
        ensures r[k].pageNumber <= r[l].pageNumber
      {
        if k >= |here| { assert r[k] == rest[k - |here|]; } else { assert r[k] == here[k]; }
        if l >= |here| { assert r[l] == rest[l - |here|]; } else { assert r[l] == here[l]; }
      }
    }
  }

  /** The records number exactly as many as the windows. */
  lemma {:induction false} RecordsLength(docId: string, ws: seq<seq<string>>, pageNumber: int, firstId: int)
    ensures |Records(docId, ws, pageNumber, firstId)| == Before(ws, |ws|)
    decreases |ws|
  {
    if ws != [] {
      RecordsLength(docId, ws[1..], pageNumber + 1, firstId + |ws[0]|);
    }
  }

  /** Record `Before(p) + j` is window `j` of page `p` (0-based). */
  lemma {:induction false} RecordsAt(docId: string, ws: seq<seq<string>>, pageNumber: int, firstId: int, p: nat, j: nat)
    requires p < |ws| && j < |ws[p]|
    ensures var r := Records(docId, ws, pageNumber, firstId);
      var k := Before(ws, p) + j;
      k < |r| && r[k] == Segment(docId, pageNumber + p, firstId + k, ws[p][j])
    decreases p
  {
    var r := Records(docId, ws, pageNumber, firstId);
    var here := PageSegments(docId, pageNumber, ws[0], firstId);
    var rest := Records(docId, ws[1..], pageNumber + 1, firstId + |ws[0]|);
    assert r == here + rest;
    if p > 0 {
      RecordsAt(docId, ws[1..], pageNumber + 1, firstId + |ws[0]|, p - 1, j);
      var k := Before(ws[1..], p - 1) + j;
      assert r[|here| + k] == rest[k];
    }
  }

  /** The records of a whole document: `chunkId` runs `0 .. n-1` in
      emission order, across pages; every record carries the document id
      and a 1-based page number; records come in page order. */
  lemma ChunkIdsContiguous(docId: string, pages: seq<string>, chunkSize: int, overlap: int)
    ensures var r := ExpectedChunks(docId, pages, chunkSize, overlap);
      r.Ok? ==>
        (forall k :: 0 <= k < |r.value| ==>
           r.value[k].chunkId == k && r.value[k].docId == docId && 1 <= r.value[k].pageNumber <= |pages|) &&
        (forall k, l :: 0 <= k < l < |r.value| ==> r.value[k].pageNumber <= r.value[l].pageNumber)
  {
    if ExpectedChunks(docId, pages, chunkSize, overlap).Ok? {
      ChunkTermination(docId, pages, chunkSize, overlap);
      ChunkPagesIsRecords(docId, pages, chunkSize, overlap, 1, 0);
      RecordsFields(docId, AllWindows(pages, chunkSize, chunkSize - overlap), 1, 0);
    }
  }

  /** Record `j` of page `p` (0-based) is window `j` of the stripped page
      (`PageWindowAt` gives its offsets) with page number `p + 1`, at
      position `Before(p) + j`: the pages' records follow one another with
      nothing in between, and nothing after the last. */
  lemma ChunkLayout(docId: string, pages: seq<string>, chunkSize: int, overlap: int, p: nat, j: nat)
    requires Terminates(pages, chunkSize - overlap)
    requires p < |pages| && j < |PageWindows(Strip(pages[p]), chunkSize, chunkSize - overlap)|
    ensures ExpectedChunks(docId, pages, chunkSize, overlap).Ok?
    ensures |ExpectedChunks(docId, pages, chunkSize, overlap).value|
         == Before(AllWindows(pages, chunkSize, chunkSize - overlap), |pages|)
    ensures Before(AllWindows(pages, chunkSize, chunkSize - overlap), p) + j
          < |ExpectedChunks(docId, pages, chunkSize, overlap).value|
    ensures ExpectedChunks(docId, pages, chunkSize, overlap).value[Before(AllWindows(pages, chunkSize, chunkSize - overlap), p) + j]
         == Segment(docId, p + 1, Before(AllWindows(pages, chunkSize, chunkSize - overlap), p) + j,
                    PageWindows(Strip(pages[p]), chunkSize, chunkSize - overlap)[j])
  {
    var ws := AllWindows(pages, chunkSize, chunkSize - overlap);
    assert ExpectedChunks(docId, pages, chunkSize, overlap) == Ok(Records(docId, ws, 1, 0)) by {
      ChunkPagesIsRecords(docId, pages, chunkSize, overlap, 1, 0);
    }
    assert ws[p] == PageWindows(Strip(pages[p]), chunkSize, chunkSize - overlap);
    RecordsLayout(docId, ws, p, j);
  }

  /** The converse of `RecordsAt`: every record is window `j` of some page
      `p`, sits at position `Before(p) + j` and carries that page's number. */
  lemma {:induction false} RecordsOrigin(docId: string, ws: seq<seq<string>>, pageNumber: int, firstId: int, k: nat)
    requires k < |Records(docId, ws, pageNumber, firstId)|
    ensures exists p, j ::
      0 <= p < |ws| && 0 <= j < |ws[p]| && k == Before(ws, p) + j &&
      Records(docId, ws, pageNumber, firstId)[k] == Segment(docId, pageNumber + p, firstId + k, ws[p][j])
    decreases |ws|
  {
    var r := Records(docId, ws, pageNumber, firstId);
    var here := PageSegments(docId, pageNumber, ws[0], firstId);
    var rest := Records(docId, ws[1..], pageNumber + 1, firstId + |ws[0]|);
    assert r == here + rest;
    if k < |here| {
      assert r[k] == Segment(docId, pageNumber + 0, firstId + k, ws[0][k]);
      assert k == Before(ws, 0) + k;
    } else {
      var k' := k - |here|;
      RecordsOrigin(docId, ws[1..], pageNumber + 1, firstId + |ws[0]|, k');
      var p', j' :| 0 <= p' < |ws[1..]| && 0 <= j' < |ws[1..][p']| && k' == Before(ws[1..], p') + j' &&
        rest[k'] == Segment(docId, pageNumber + 1 + p', firstId + |ws[0]| + k', ws[1..][p'][j']);
      assert ws[1..][p'] == ws[p' + 1];
      assert r[k] == rest[k'];
      assert k == Before(ws, p' + 1) + j';
      assert r[k] == Segment(docId, pageNumber + (p' + 1), firstId + k, ws[p' + 1][j']);
    }
  }

  /** Every chunk of a document comes from one page: chunk `k` carries the
      document id and counter `k`, and is window `j` of stripped page `p`
      for some `p` and `j` (see `FromPage`). */
  lemma ChunkOrigin(docId: string, pages: seq<string>, chunkSize: int, overlap: int, k: nat)
    requires ExpectedChunks(docId, pages, chunkSize, overlap).Ok?
    requires k < |ExpectedChunks(docId, pages, chunkSize, overlap).value|
    ensures ExpectedChunks(docId, pages, chunkSize, overlap).value[k].docId == docId
    ensures ExpectedChunks(docId, pages, chunkSize, overlap).value[k].chunkId == k
    ensures exists p, j :: FromPage(ExpectedChunks(docId, pages, chunkSize, overlap).value[k], pages, chunkSize, overlap, p, j)
  {
    var step := chunkSize - overlap;
    assert Terminates(pages, step) by {
      ChunkTermination(docId, pages, chunkSize, overlap);
    }
    ChunkPagesIsRecords(docId, pages, chunkSize, overlap, 1, 0);
    RecordFromPage(docId, pages, chunkSize, overlap, AllWindows(pages, chunkSize, step), k);
  }

  /** `ChunkOrigin` for the records of the windows `ws` of every page. */
  lemma RecordFromPage(docId: string, pages: seq<string>, chunkSize: int, overlap: int, ws: seq<seq<string>>, k: nat)
    requires WindowsOf(ws, pages, chunkSize, chunkSize - overlap)
    requires k < |Records(docId, ws, 1, 0)|
    ensures Records(docId, ws, 1, 0)[k].docId == docId && Records(docId, ws, 1, 0)[k].chunkId == k
    ensures exists p, j :: FromPage(Records(docId, ws, 1, 0)[k], pages, chunkSize, overlap, p, j)
  {
    var r := Records(docId, ws, 1, 0);
    RecordsOrigin(docId, ws, 1, 0, k);
    var p, j :| 0 <= p < |ws| && 0 <= j < |ws[p]| && k == Before(ws, p) + j &&
      r[k] == Segment(docId, 1 + p, 0 + k, ws[p][j]);
    WindowFromPage(r[k], pages, chunkSize, overlap, p, j);
  }

  /** A record holding window `j` of stripped page `p`, numbered `p + 1`,
      is `FromPage`. */
  lemma WindowFromPage(c: Segment, pages: seq<string>, chunkSize: int, overlap: int, p: nat, j: nat)
    requires p < |pages| && PageTerminates(Strip(pages[p]), chunkSize - overlap)
    requires j < |PageWindows(Strip(pages[p]), chunkSize, chunkSize - overlap)|
    requires c.pageNumber == p + 1 && c.text == PageWindows(Strip(pages[p]), chunkSize, chunkSize - overlap)[j]
    ensures FromPage(c, pages, chunkSize, overlap, p, j)
  {
    var t, step := Strip(pages[p]), chunkSize - overlap;
    assert step > 0 && t != [];
    MulLe(0, j, step);
    PageWindowBounded(t, chunkSize, step, j);
  }

  /** Chunk `c` is window `j` of stripped page `p` (0-based) and carries
      page number `p + 1`; its text is the piece of that stripped page
      that begins at `j * step`, and holds at most `chunkSize` characters
      when `chunkSize >= 0`. */
  predicate FromPage(c: Segment, pages: seq<string>, chunkSize: int, overlap: int, p: int, j: int)
  {
    var step := chunkSize - overlap;
    0 <= p < |pages| && 0 <= j && PageTerminates(Strip(pages[p]), step) &&
    j < |PageWindows(Strip(pages[p]), chunkSize, step)| &&
    c.pageNumber == p + 1 && c.text == PageWindows(Strip(pages[p]), chunkSize, step)[j] &&
    0 <= j * step && j * step + |c.text| <= |Strip(pages[p])| &&
    c.text == Strip(pages[p])[j * step..j * step + |c.text|] &&
    (chunkSize >= 0 ==> |c.text| <= chunkSize)
  }

  /** Both facts about `Records` that `ChunkLayout` needs, for a document
      that starts at page 1 and counter 0. */
  lemma RecordsLayout(docId: string, ws: seq<seq<string>>, p: nat, j: nat)
    requires p < |ws| && j < |ws[p]|
    ensures |Records(docId, ws, 1, 0)| == Before(ws, |ws|)
    ensures Before(ws, p) + j < |Records(docId, ws, 1, 0)|
    ensures Records(docId, ws, 1, 0)[Before(ws, p) + j] == Segment(docId, p + 1, Before(ws, p) + j, ws[p][j])
  {
    RecordsLength(docId, ws, 1, 0);
    RecordsAt(docId, ws, 1, 0, p, j);
  }

  /** The chunker terminates exactly when `chunkSize - overlap > 0` or every
      page strips to nothing; otherwise it loops on the first non-blank
      page. */
  lemma ChunkTermination(docId: string, pages: seq<string>, chunkSize: int, overlap: int)
    ensures var r := ExpectedChunks(docId, pages, chunkSize, overlap);
      (r.Ok? <==> Terminates(pages, chunkSize - overlap)) &&
      (r.Ok? <==> chunkSize - overlap > 0 || forall p :: 0 <= p < |pages| ==> Strip(pages[p]) == []) &&
      (r.Err? ==> var p := FirstNonBlank(pages);
                  p < |pages| && r.error == Diverges(p + 1) && Strip(pages[p]) != [])
  {
    ChunkPagesDiverge(docId, pages, chunkSize, overlap, 1, 0);
    TerminatesIff(pages, chunkSize - overlap);
  }

  /** With the default width 500 and overlap 100 the chunker always
      finishes. */
  lemma DefaultsTerminate(docId: string, pages: seq<string>)
    ensures ExpectedChunks(docId, pages, DefaultChunkSize, DefaultOverlap).Ok?
  {
    ChunkTermination(docId, pages, DefaultChunkSize, DefaultOverlap);
  }

  /** The worked example as records: one page, width 4, overlap 1. */
  lemma ChunksExample()
    ensures ExpectedChunks("doc", ["abcdefghij"], 4, 1)
         == Ok([Segment("doc", 1, 0, "abcd"), Segment("doc", 1, 1, "defg"),
                Segment("doc", 1, 2, "ghij"), Segment("doc", 1, 3, "j")])
  {
    var t := "abcdefghij";
    StripPlain(t);
    WindowsExample();
    var here := PageSegments("doc", 1, ["abcd", "defg", "ghij", "j"], 0);
    assert here == [Segment("doc", 1, 0, "abcd"), Segment("doc", 1, 1, "defg"),
                    Segment("doc", 1, 2, "ghij"), Segment("doc", 1, 3, "j")];
    assert ["abcdefghij"][1..] == [];
    assert ExpectedChunks("doc", ["abcdefghij"], 4, 1) == Prepend(here, Ok([]));
    assert here + [] == here;
  }

  /** The window loop of `create_text_chunks` for one stripped page: it
      appends one record per window to `chunks`, numbering them on from
      `chunkId`, and hands back the list and the counter. */
  method AppendPageChunks(docId: string, pageNumber: int, pageText: string, chunkSize: int, overlap: int,
                          chunks: seq<Segment>, chunkId: int)
    returns (chunks': seq<Segment>, chunkId': int)
    requires PageTerminates(pageText, chunkSize - overlap)
    requires chunkId == |chunks|
    ensures chunks' == chunks + PageSegments(docId, pageNumber, PageWindows(pageText, chunkSize, chunkSize - overlap), chunkId)
    ensures chunkId' == |chunks'|
  {
    chunks', chunkId' := chunks, chunkId;
    var start := 0;
    var textLength := |pageText|;
    var step := chunkSize - overlap;
    ghost var emitted: seq<string> := [];
    assert textLength > 0 ==> emitted + WindowsFrom(pageText, chunkSize, step, 0) == PageWindows(pageText, chunkSize, step);
    while start < textLength
      invariant start >= 0
      invariant textLength > 0 ==> emitted + WindowsFrom(pageText, chunkSize, step, start)
                                   == PageWindows(pageText, chunkSize, step)
      invariant textLength == 0 ==> emitted == []
      invariant chunks' == chunks + PageSegments(docId, pageNumber, emitted, chunkId)
      invariant chunkId' == |chunks'|
      decreases textLength - start
    {
      var end := Min(start + chunkSize, textLength);
      var chunkText := Slice(pageText, start, end);
      assert WindowsFrom(pageText, chunkSize, step, start)
          == [chunkText] + WindowsFrom(pageText, chunkSize, step, start + step);
      assert emitted + WindowsFrom(pageText, chunkSize, step, start)
          == (emitted + [chunkText]) + WindowsFrom(pageText, chunkSize, step, start + step);
      PageSegmentsSnoc(docId, pageNumber, emitted, chunkText, chunkId);
      chunks' := chunks' + [Segment(docId, pageNumber, chunkId', chunkText)];
      emitted := emitted + [chunkText];
      chunkId' := chunkId' + 1;
      start := start + step;
    }
    assert emitted == PageWindows(pageText, chunkSize, step);
  }

  /** `create_text_chunks`: the page loop, which strips each page and runs
      the window loop on it; the counter runs over the whole document. */
  method CreateTextChunks(docId: string, pagesText: seq<string>,
                          chunkSize: int := DefaultChunkSize, overlap: int := DefaultOverlap)
    returns (r: Result<seq<Segment>, ChunkError>)
    ensures r == ExpectedChunks(docId, pagesText, chunkSize, overlap)
    ensures r.Ok? <==> Terminates(pagesText, chunkSize - overlap)
    ensures r.Ok? ==> forall k :: 0 <= k < |r.value| ==> r.value[k].chunkId == k && r.value[k].docId == docId
  {
    ChunkTermination(docId, pagesText, chunkSize, overlap);
    ChunkIdsContiguous(docId, pagesText, chunkSize, overlap);
    var chunks: seq<Segment> := [];
    var chunkId := 0;
    var i := 0;
    assert pagesText[i..] == pagesText;
    PrependNothing(ExpectedChunks(docId, pagesText, chunkSize, overlap));
    while i < |pagesText|
      invariant 0 <= i <= |pagesText|
      invariant chunkId == |chunks|
      invariant Prepend(chunks, ChunkPages(docId, pagesText[i..], chunkSize, overlap, i + 1, chunkId))
                == ExpectedChunks(docId, pagesText, chunkSize, overlap)
    {
      var pageNumber := i + 1;
      var pageText := Strip(pagesText[i]);
      if 0 < |pageText| && chunkSize - overlap <= 0 {
        // `start` would never move forward: the window loop would not end.
        assert pagesText[i..][0] == pagesText[i];
        return Err(Diverges(pageNumber));
      }
      ghost var before := chunks;
      chunks, chunkId := AppendPageChunks(docId, pageNumber, pageText, chunkSize, overlap, chunks, chunkId);
      ChunkPagesUnfold(docId, pagesText, chunkSize, overlap, i, before, chunks);
      i := i + 1;
    }
    assert chunks + [] == chunks;
    return Ok(chunks);
  }
}
