/** The chunker of `RAGEngine.chunk_text`.

    The text is cut into windows of `size` characters that start at
    0, s, 2s, ... for the stride s = size - overlap. A window's tentative
    end `start + size`, when it lies inside the text, moves to the first
    newline found in [end - 50, end + 50); windows holding only whitespace
    are dropped.
 */
module Chunker {
  import opened Results
  import opened Text

  const DefaultChunkSize: nat := 1000
  const DefaultOverlap: int := 200

  /** Half the width of the neighbourhood searched for a newline. */
  const CutRadius: nat := 50

  /** The configurations the chunker handles: a positive stride (otherwise
      the loop never advances) and windows wider than the newline radius
      (otherwise the search range would start before the window, where
      Python reads a negative bound from the end of the text). */
  predicate ValidConfig(size: nat, overlap: int) {
    CutRadius < size && overlap < size
  }

  function Stride(size: nat, overlap: int): (s: nat)
    requires overlap < size
    ensures s > 0
  {
    size - overlap
  }

  /** The value of `end` once the newline search is done: the tentative
      end `start + size`, or the first newline near it. */
  function CutPoint(text: string, start: nat, size: nat): nat
    requires CutRadius < size
  {
    var end := start + size;
    if end < |text| then
      match FindIn(text, '\n', end - CutRadius, end + CutRadius)
      case Some(p) => p
      case None => end
    else end
  }

  /** A cut moves the tentative end back by at most the newline radius or
      forward by less than it, and only when that end lies inside the text. */
  lemma CutPointRange(text: string, start: nat, size: nat)
    requires CutRadius < size
    ensures var e := CutPoint(text, start, size);
      && start + size - CutRadius <= e < start + size + CutRadius
      && (start + size >= |text| ==> e == start + size)
  {
    FindInSpec(text, '\n', start + size - CutRadius, start + size + CutRadius);
  }

  /** Where a window is cut when its tentative end lies inside the text:
      at the lowest newline index in [end - 50, min(end + 50, |text|)) if
      there is one, and at the tentative end otherwise. */
  lemma CutAtFirstNewline(text: string, start: nat, size: nat)
    requires CutRadius < size && start + size < |text|
    ensures var e := CutPoint(text, start, size);
      var end := start + size;
      if exists q | end - CutRadius <= q < end + CutRadius && q < |text| :: text[q] == '\n'
      then
        && e < |text| && text[e] == '\n'
        && forall q | end - CutRadius <= q < e :: text[q] != '\n'
      else e == end
  {
    FindInSpec(text, '\n', start + size - CutRadius, start + size + CutRadius);
  }

  /** The text of the window starting at `start`: `text[start:end]`. */
  function Window(text: string, start: nat, size: nat): string
    requires CutRadius < size
  {
    Slice(text, start, CutPoint(text, start, size))
  }

  /** A window is a non-empty piece of the text at its start, shorter than
      `size + 50`; it ends at the cut point or at the end of the text. */
  lemma WindowShape(text: string, start: nat, size: nat)
    requires CutRadius < size && start < |text|
    ensures var w := Window(text, start, size);
      && 0 < |w| < size + CutRadius
      && start + |w| <= |text| && w == text[start..start + |w|]
      && (start + |w| == |text| || start + |w| == CutPoint(text, start, size))
  {
    CutPointRange(text, start, size);
  }

  /** Where the window starting at `start` ends. */
  function WindowEnd(text: string, start: nat, size: nat): (e: nat)
    requires CutRadius < size && start < |text|
    ensures e == start + |Window(text, start, size)|
  {
    WindowShape(text, start, size);
    var e := CutPoint(text, start, size);
    if e < |text| then e else |text|
  }

  /** The window starts start, start + stride, ... below `len`: the values
      `start` takes in the loop of `chunk_text`. */
  function Grid(len: nat, start: nat, stride: nat): (g: seq<nat>)
    requires stride > 0
    ensures forall i | 0 <= i < |g| :: start <= g[i] < len
    decreases len - start
  {
    if start >= len then [] else [start] + Grid(len, start + stride, stride)
  }

  /** The grid is empty exactly when `start` is already past the end; it
      begins at `start`, and one more stride from its last start reaches
      the end. */
  lemma {:induction false} GridEnds(len: nat, start: nat, stride: nat)
    requires stride > 0
    ensures var g := Grid(len, start, stride);
      && (start < len <==> |g| > 0)
      && (|g| > 0 ==> g[0] == start && len <= g[|g| - 1] + stride)
    decreases len - start
  {
    if start < len {
      GridEnds(len, start + stride, stride);
    }
  }

  predicate Increasing(xs: seq<nat>) {
    forall i, j | 0 <= i < j < |xs| :: xs[i] < xs[j]
  }

  /** The grid is increasing. */
  lemma {:induction false} GridIncreasing(len: nat, start: nat, stride: nat)
    requires stride > 0
    ensures Increasing(Grid(len, start, stride))
    decreases len - start
  {
    if start < len {
      GridIncreasing(len, start + stride, stride);
      var g := Grid(len, start, stride);
      var g' := Grid(len, start + stride, stride);
      assert g == [start] + g';
      forall i, j | 0 <= i < j < |g| ensures g[i] < g[j] {
        assert g[j] == g'[j - 1];
        if i > 0 {
          assert g[i] == g'[i - 1];
          assert g'[i - 1] < g'[j - 1];
        } else {
          assert start + stride <= g'[j - 1];
        }
      }
    }
  }

  /** The grid holds exactly the positions start + k * stride below `len`. */
  lemma {:induction false} GridIsArithmetic(len: nat, start: nat, stride: nat, k: nat)
    requires stride > 0
    ensures var g := Grid(len, start, stride);
      start + k * stride < len <==> k < |g| && g[k] == start + k * stride
    decreases len - start
  {
    var g := Grid(len, start, stride);
    if start < len && k > 0 {
      GridIsArithmetic(len, start + stride, stride, k - 1);
      var g' := Grid(len, start + stride, stride);
      assert g == [start] + g';
      assert start + k * stride == start + stride + (k - 1) * stride;
    }
  }

  /** The number of windows is ceil((len - start) / stride): the least
      number of strides that carries `start` to or past `len`. */
  lemma {:induction false} GridCountIsCeiling(len: nat, start: nat, stride: nat)
    requires stride > 0 && start < len
    ensures var n := |Grid(len, start, stride)|;
      (n - 1) * stride < len - start <= n * stride
    decreases len - start
  {
    var n := |Grid(len, start, stride)|;
    if start + stride < len {
      GridCountIsCeiling(len, start + stride, stride);
      assert (n - 1) * stride == (n - 2) * stride + stride;
      assert n * stride == (n - 1) * stride + stride;
    }
  }

  /** The starts, among `ps`, whose window `win` passes the test `keep`, in
      their order in `ps`. */
  function KeptStarts(keep: string -> bool, win: nat -> string, ps: seq<nat>): seq<nat> {
    if ps == [] then []
    else
      var rest := KeptStarts(keep, win, ps[1..]);
      if keep(win(ps[0])) then [ps[0]] + rest else rest
  }

  /** Every kept start is one of `ps` and its window passes the test. */
  lemma {:induction false} KeptStartsSound(keep: string -> bool, win: nat -> string, ps: seq<nat>)
    ensures var ks := KeptStarts(keep, win, ps);
      && |ks| <= |ps|
      && (forall i | 0 <= i < |ks| :: ks[i] in ps && keep(win(ks[i])))
  {
    if ps != [] {
      KeptStartsSound(keep, win, ps[1..]);
      var rest := KeptStarts(keep, win, ps[1..]);
      assert forall i | 0 <= i < |rest| :: rest[i] in ps;
    }
  }

  /** Every start of `ps` whose window passes the test is kept. */
  lemma {:induction false} KeptStartsComplete(keep: string -> bool, win: nat -> string, ps: seq<nat>)
    ensures var ks := KeptStarts(keep, win, ps);
      forall i | 0 <= i < |ps| :: keep(win(ps[i])) ==> ps[i] in ks
  {
    if ps != [] {
      KeptStartsComplete(keep, win, ps[1..]);
      var ks := KeptStarts(keep, win, ps);
      forall i | 0 <= i < |ps| && keep(win(ps[i])) ensures ps[i] in ks {
        if i > 0 {
          assert ps[i] == ps[1..][i - 1];
        }
      }
    }
  }

  /** Filtering keeps the order of the starts. */
  lemma {:induction false} KeptStartsIncreasing(keep: string -> bool, win: nat -> string, ps: seq<nat>)
    requires Increasing(ps)
    ensures Increasing(KeptStarts(keep, win, ps))
  {
    if ps != [] {
      assert Increasing(ps[1..]);
      KeptStartsIncreasing(keep, win, ps[1..]);
      var ks := KeptStarts(keep, win, ps);
      if keep(win(ps[0])) {
        KeptStartsSound(keep, win, ps[1..]);
        forall i, j | 0 <= i < j < |ks| ensures ks[i] < ks[j] {
          if i == 0 {
            var m :| 0 <= m < |ps[1..]| && ps[1..][m] == ks[j];
            assert ps[0] < ps[m + 1];
          }
        }
      }
    }
  }

  /** `KeptStarts` is the filter it is meant to be: it keeps exactly the
      starts whose window passes the test, in their order. */
  lemma KeptStartsSpec(keep: string -> bool, win: nat -> string, ps: seq<nat>)
    ensures var ks := KeptStarts(keep, win, ps);
      && |ks| <= |ps|
      && (forall i | 0 <= i < |ks| :: ks[i] in ps && keep(win(ks[i])))
      && (forall i | 0 <= i < |ps| :: keep(win(ps[i])) ==> ps[i] in ks)
      && (Increasing(ps) ==> Increasing(ks))
  {
    KeptStartsSound(keep, win, ps);
    KeptStartsComplete(keep, win, ps);
    if Increasing(ps) {
      KeptStartsIncreasing(keep, win, ps);
    }
  }

  /** The windows at the starts `ks`, in order. */
  function WindowsAt(win: nat -> string, ks: seq<nat>): seq<string> {
    if ks == [] then [] else [win(ks[0])] + WindowsAt(win, ks[1..])
  }

  lemma {:induction false} WindowsAtSpec(win: nat -> string, ks: seq<nat>)
    ensures var ws := WindowsAt(win, ks);
      |ws| == |ks| && forall i | 0 <= i < |ks| :: ws[i] == win(ks[i])
  {
    if ks != [] {
      WindowsAtSpec(win, ks[1..]);
    }
  }

  /** The state of a loop that walks the starts `start`, `start + stride`,
      ... below `len` and appends each window that passes `keep` to `acc`. */
  function RunFrom(keep: string -> bool, win: nat -> string, len: nat, stride: nat, start: nat, acc: seq<string>): seq<string>
    requires stride > 0
    decreases len - start
  {
    if start >= len then acc
    else
      var w := win(start);
      RunFrom(keep, win, len, stride, start + stride, if keep(w) then acc + [w] else acc)
  }

  /** Such a loop appends the windows at the kept grid starts. */
  lemma {:induction false} RunFromKeptStarts(keep: string -> bool, win: nat -> string, len: nat, stride: nat, start: nat, acc: seq<string>)
    requires stride > 0
    ensures RunFrom(keep, win, len, stride, start, acc)
      == acc + WindowsAt(win, KeptStarts(keep, win, Grid(len, start, stride)))
    decreases len - start
  {
    var g := Grid(len, start, stride);
    if start < len {
      var w := win(start);
      var acc' := if keep(w) then acc + [w] else acc;
      RunFromKeptStarts(keep, win, len, stride, start + stride, acc');
      var g' := Grid(len, start + stride, stride);
      assert g[1..] == g';
      var rest := KeptStarts(keep, win, g');
      if keep(w) {
        assert KeptStarts(keep, win, g) == [start] + rest;
        assert ([start] + rest)[1..] == rest;
        assert acc' + WindowsAt(win, rest) == acc + ([w] + WindowsAt(win, rest));
      } else {
        assert KeptStarts(keep, win, g) == rest;
      }
    } else {
      assert acc + [] == acc;
    }
  }

  /** One step of such a loop. */
  lemma RunFromStep(keep: string -> bool, win: nat -> string, len: nat, stride: nat, start: nat, acc: seq<string>, w: string)
    requires stride > 0 && start < len && w == win(start)
    ensures RunFrom(keep, win, len, stride, start, acc)
      == RunFrom(keep, win, len, stride, start + stride, if keep(w) then acc + [w] else acc)
  {
  }

  /** The windows of `text`, by start. */
  function WindowOf(text: string, size: nat): nat -> string
    requires CutRadius < size
  {
    (p: nat) => Window(text, p, size)
  }

  /** The starts of the windows `chunk_text` keeps. */
  function ChunkStarts(text: string, size: nat, overlap: int): seq<nat>
    requires ValidConfig(size, overlap)
  {
    KeptStarts(HasContent, WindowOf(text, size), Grid(|text|, 0, Stride(size, overlap)))
  }

  /** The chunks `chunk_text(text, size, overlap)` returns: what its loop
      collects walking the grid from 0 and keeping the non-blank windows. */
  function Chunks(text: string, size: nat, overlap: int): seq<string>
    requires ValidConfig(size, overlap)
  {
    RunFrom(HasContent, WindowOf(text, size), |text|, Stride(size, overlap), 0, [])
  }

  /** The chunks are the windows at the kept grid starts, in order. */
  lemma ChunksAreKeptWindows(text: string, size: nat, overlap: int)
    requires ValidConfig(size, overlap)
    ensures Chunks(text, size, overlap) == WindowsAt(WindowOf(text, size), ChunkStarts(text, size, overlap))
  {
    var ws := WindowsAt(WindowOf(text, size), ChunkStarts(text, size, overlap));
    RunFromKeptStarts(HasContent, WindowOf(text, size), |text|, Stride(size, overlap), 0, []);
    assert [] + ws == ws;
  }

  /** Which windows become chunks: the kept starts are grid positions in
      increasing order, each chunk is the non-blank window at its start,
      shorter than `size + 50`, and every grid window with a non-whitespace
      character is kept. */
  lemma ChunkShape(text: string, size: nat, overlap: int)
    requires ValidConfig(size, overlap)
    ensures var g := Grid(|text|, 0, Stride(size, overlap));
      var ks := ChunkStarts(text, size, overlap);
      var chunks := Chunks(text, size, overlap);
      && |chunks| == |ks| <= |g|
      && (forall i | 0 <= i < |ks| :: ks[i] in g && chunks[i] == Window(text, ks[i], size))
      && (forall i | 0 <= i < |ks| :: HasContent(chunks[i]) && |chunks[i]| < size + CutRadius)
      && Increasing(ks)
      && (forall i | 0 <= i < |g| :: HasContent(Window(text, g[i], size)) ==> g[i] in ks)
  {
    var g := Grid(|text|, 0, Stride(size, overlap));
    ChunksAreKeptWindows(text, size, overlap);
    GridIncreasing(|text|, 0, Stride(size, overlap));
    KeptStartsSpec(HasContent, WindowOf(text, size), g);
    var ks := ChunkStarts(text, size, overlap);
    WindowsAtSpec(WindowOf(text, size), ks);
    forall i | 0 <= i < |ks| ensures |Window(text, ks[i], size)| < size + CutRadius {
      var m :| 0 <= m < |g| && g[m] == ks[i];
      WindowShape(text, ks[i], size);
    }
  }

  /** At most one chunk per grid start. */
  lemma ChunksAtMostGrid(text: string, size: nat, overlap: int)
    requires ValidConfig(size, overlap)
    ensures |Chunks(text, size, overlap)| <= |Grid(|text|, 0, Stride(size, overlap))|
  {
    var g := Grid(|text|, 0, Stride(size, overlap));
    ChunksAreKeptWindows(text, size, overlap);
    KeptStartsSound(HasContent, WindowOf(text, size), g);
    WindowsAtSpec(WindowOf(text, size), ChunkStarts(text, size, overlap));
  }

  /** There are at most ceil(|text| / s) chunks for the stride s. */
  lemma ChunkCountBound(text: string, size: nat, overlap: int)
    requires ValidConfig(size, overlap)
    ensures |Chunks(text, size, overlap)| * Stride(size, overlap) < |text| + Stride(size, overlap)
  {
    var s := Stride(size, overlap);
    var m := |Grid(|text|, 0, s)|;
    ChunksAtMostGrid(text, size, overlap);
    GridEnds(|text|, 0, s);
    if 0 < |text| {
      GridCountIsCeiling(|text|, 0, s);
    }
    ScaledBelow(|Chunks(text, size, overlap)|, m, s, |text|);
  }

  /** `n <= m` and `(m - 1) * s < len` (or `m == 0`) give `n * s < len + s`. */
  lemma ScaledBelow(n: nat, m: nat, s: nat, len: nat)
    requires n <= m && 0 < s
    requires m == 0 || (m - 1) * s < len
    ensures n * s < len + s
  {
    if 0 < m {
      assert n * s <= m * s;
      assert m * s == (m - 1) * s + s;
    }
  }

  /** The body of the loop of `chunk_text` up to the slice: the tentative
      end, the newline search near it, and `text[start:end]`. */
  method CutWindow(text: string, start: nat, size: nat) returns (chunk: string)
    requires CutRadius < size && start < |text|
    ensures chunk == Window(text, start, size)
  {
    var end := start + size;
    if end < |text| {
      var newlinePos := FindIn(text, '\n', end - CutRadius, end + CutRadius);
      if newlinePos.Some? {
        end := newlinePos.value;
      }
    }
    chunk := Slice(text, start, end);
  }

  /** The test `if chunk.strip():`, true for a chunk that is not blank. */
  method IsKept(chunk: string) returns (keep: bool)
    ensures keep <==> HasContent(chunk)
  {
    keep := Strip(chunk) != [];
  }

  /** One iteration of the loop of `chunk_text`: cut the window at `start`
      and append it when it is not blank. */
  method ChunkStep(text: string, size: nat, stride: nat, start: nat, chunks: seq<string>)
    returns (chunks': seq<string>)
    requires CutRadius < size && stride > 0 && start < |text|
    ensures RunFrom(HasContent, WindowOf(text, size), |text|, stride, start, chunks)
      == RunFrom(HasContent, WindowOf(text, size), |text|, stride, start + stride, chunks')
  {
    var chunk := CutWindow(text, start, size);
    RunFromStep(HasContent, WindowOf(text, size), |text|, stride, start, chunks, chunk);
    var keep := IsKept(chunk);
    chunks' := if keep then chunks + [chunk] else chunks;
  }

  /** The loop of `chunk_text`, stepping `start` by the stride until it
      passes the end of the text. */
  method ChunkText(text: string, size: nat, overlap: int) returns (chunks: seq<string>)
    requires ValidConfig(size, overlap)
    ensures chunks == Chunks(text, size, overlap)
  {
    var stride := Stride(size, overlap);
    chunks := [];
    var start := 0;
    while start < |text|
      invariant RunFrom(HasContent, WindowOf(text, size), |text|, stride, start, chunks)
        == Chunks(text, size, overlap)
      decreases |text| - start
    {
      chunks := ChunkStep(text, size, stride, start, chunks);
      start := start + stride;
    }
  }

  /** A window reaches at least the start of the next one whenever the
      overlap is at least the newline radius: moving an end to a newline
      shortens the window by at most 50 characters. */
  lemma NoGapBetweenWindows(text: string, size: nat, overlap: int, start: nat)
    requires ValidConfig(size, overlap) && CutRadius <= overlap
    requires start < |text|
    ensures WindowEnd(text, start, size) >= start + Stride(size, overlap)
      || WindowEnd(text, start, size) == |text|
  {
    WindowShape(text, start, size);
    CutPointRange(text, start, size);
  }

  /** Every position at or after `start` below `len` lies in the stride
      block of some grid position. */
  lemma {:induction false} GridBlock(len: nat, p: nat, start: nat, stride: nat) returns (i: nat)
    requires stride > 0 && start <= p < len
    ensures var g := Grid(len, start, stride);
      i < |g| && g[i] <= p < g[i] + stride
    decreases p - start
  {
    if p < start + stride {
      i := 0;
    } else {
      var j := GridBlock(len, p, start + stride, stride);
      i := j + 1;
    }
  }

  /** Every position of the text lies in some window when the overlap is
      at least the newline radius. */
  lemma CoveredByWindow(text: string, size: nat, overlap: int, p: nat) returns (i: nat)
    requires ValidConfig(size, overlap) && CutRadius <= overlap
    requires p < |text|
    ensures var g := Grid(|text|, 0, Stride(size, overlap));
      i < |g| && g[i] <= p < WindowEnd(text, g[i], size)
  {
    i := GridBlock(|text|, p, 0, Stride(size, overlap));
    NoGapBetweenWindows(text, size, overlap, Grid(|text|, 0, Stride(size, overlap))[i]);
  }

  /** A window's non-whitespace character is one of the text's. */
  lemma WindowContentInText(text: string, start: nat, size: nat)
    requires CutRadius < size && start < |text|
    requires HasContent(Window(text, start, size))
    ensures HasContent(text)
  {
    var w := Window(text, start, size);
    WindowShape(text, start, size);
    var i := ContentStart(w);
    assert text[start + i] == w[i];
    ContentWitness(text, start + i);
  }

  /** A text with a non-whitespace character yields a chunk when the
      overlap is at least the newline radius. */
  lemma ContentYieldsChunk(text: string, size: nat, overlap: int)
    requires ValidConfig(size, overlap) && CutRadius <= overlap
    requires HasContent(text)
    ensures ChunkStarts(text, size, overlap) != []
  {
    var g := Grid(|text|, 0, Stride(size, overlap));
    var p := ContentStart(text);
    var i := CoveredByWindow(text, size, overlap, p);
    var w := Window(text, g[i], size);
    WindowShape(text, g[i], size);
    assert w[p - g[i]] == text[p];
    ContentWitness(w, p - g[i]);
    KeptStartsSpec(HasContent, WindowOf(text, size), g);
  }

  /** With an overlap of at least the newline radius (the defaults 1000/200
      qualify), the chunker yields no chunk exactly when the text is blank. */
  lemma NoChunksIffBlank(text: string, size: nat, overlap: int)
    requires ValidConfig(size, overlap) && CutRadius <= overlap
    ensures Chunks(text, size, overlap) == [] <==> !HasContent(text)
  {
    var g := Grid(|text|, 0, Stride(size, overlap));
    var ks := ChunkStarts(text, size, overlap);
    ChunksAreKeptWindows(text, size, overlap);
    WindowsAtSpec(WindowOf(text, size), ks);
    if HasContent(text) {
      ContentYieldsChunk(text, size, overlap);
    } else if ks != [] {
      KeptStartsSpec(HasContent, WindowOf(text, size), g);
      WindowContentInText(text, ks[0], size);
    }
  }

  /** Below that overlap a non-blank text can yield no chunk: with windows
      of 100 and no overlap, the first window is cut at the newline after
      50 blanks and the second holds only the trailing blanks, so the
      characters in between fall into no window. */
  lemma SmallOverlapCanLoseContent()
    ensures var text := seq(50, _ => ' ') + "\n" + seq(49, _ => 'x') + seq(10, _ => ' ');
      HasContent(text) && Chunks(text, 100, 0) == []
  {
    var text := seq(50, _ => ' ') + "\n" + seq(49, _ => 'x') + seq(10, _ => ' ');
    var win := WindowOf(text, 100);
    assert text[51] == 'x';
    ContentWitness(text, 51);
    assert text[50] == '\n';
    CutAtFirstNewline(text, 0, 100);
    assert CutPoint(text, 0, 100) == 50;
    assert win(0) == text[..50];
    HasContentIff(text[..50]);
    assert !HasContent(win(0)) by {
      forall i | 0 <= i < 50 ensures !ContentAt(text[..50], i) {
        assert text[..50][i] == ' ';
      }
    }
    CutPointRange(text, 100, 100);
    assert win(100) == text[100..];
    HasContentIff(text[100..]);
    assert !HasContent(win(100)) by {
      forall i | 0 <= i < 10 ensures !ContentAt(text[100..], i) {
        assert text[100..][i] == ' ';
      }
    }
    RunFromStep(HasContent, win, |text|, 100, 0, [], win(0));
    RunFromStep(HasContent, win, |text|, 100, 100, [], win(100));
  }

  /** A text no longer than one stride yields itself as the only chunk,
      provided it is not blank. */
  lemma ShortTextIsOneChunk(text: string, size: nat, overlap: int)
    requires ValidConfig(size, overlap) && 0 <= overlap
    requires HasContent(text) && |text| <= Stride(size, overlap)
    ensures Chunks(text, size, overlap) == [text]
  {
    var s := Stride(size, overlap);
    var win := WindowOf(text, size);
    CutPointRange(text, 0, size);
    assert win(0) == text;
    assert Grid(|text|, 0, s) == [0];
    assert [0][1..] == [];
    assert ChunkStarts(text, size, overlap) == [0];
    ChunksAreKeptWindows(text, size, overlap);
  }

  /** A text longer than one stride but no longer than a window also yields
      the tail that starts at the stride, so "shorter than the window" does
      not mean "one chunk". */
  lemma WindowLengthTextHasTail(text: string, size: nat, overlap: int)
    requires ValidConfig(size, overlap) && 0 <= overlap
    requires Stride(size, overlap) < |text| <= size && |text| <= 2 * Stride(size, overlap)
    requires HasContent(text[Stride(size, overlap)..])
    ensures Chunks(text, size, overlap) == [text, text[Stride(size, overlap)..]]
  {
    var s := Stride(size, overlap);
    var win := WindowOf(text, size);
    CutPointRange(text, 0, size);
    CutPointRange(text, s, size);
    assert win(0) == text;
    assert win(s) == text[s..];
    var i := ContentStart(text[s..]);
    assert text[s + i] == text[s..][i];
    ContentWitness(text, s + i);
    RunFromStep(HasContent, win, |text|, s, 0, [], text);
    RunFromStep(HasContent, win, |text|, s, s, [text], text[s..]);
    assert [text] + [text[s..]] == [text, text[s..]];
  }
}
