/** The HDF5 dump compactor: from `x.uncompressed.h5`, whose datasets are
    the frames keyed "0", "1", ..., it builds one stacked `images` dataset in
    `x.h5`, copying full chunks of min(n, 100) frames and then one partial
    chunk.  The input file is a map from dataset name to frame; the stacked
    dataset is an array indexed by the last (frame) axis. */
module CompressH5 {
  import opened PyText

  datatype NameError =
    | IndexError        // `parts[-2]` of a name without any '.'
    | NotUncompressed   // the message "file name should be of the form ..." and an early return

  datatype NameResult = Named(outname: string) | Refused(error: NameError)

  /** The output name: the dot-separated parts without the second-to-last,
      which must be "uncompressed". */
  function OutName(name: string): NameResult
  {
    var parts := Split(name, '.');
    if |parts| < 2 then Refused(IndexError)
    else if parts[|parts| - 2] != "uncompressed" then Refused(NotUncompressed)
    else Named(Join(parts[..|parts| - 2] + parts[|parts| - 1..], '.'))
  }

  /** Splitting `stem.mid.ext` where neither `mid` nor `ext` holds a dot. */
  lemma SplitTail(stem: string, mid: string, ext: string)
    requires '.' !in mid && '.' !in ext
    ensures Split(stem + ['.'] + (mid + ['.'] + ext), '.') == Split(stem, '.') + [mid, ext]
  {
    SplitAround(stem, mid + ['.'] + ext, '.');
    SplitAround(mid, ext, '.');
    SplitNoSep(mid, '.');
    SplitNoSep(ext, '.');
  }

  /** Dropping the second-to-last of the parts of `stem.mid.ext`. */
  lemma JoinTail(stem: string, mid: string, ext: string)
    requires '.' !in mid && '.' !in ext
    ensures var parts := Split(stem + ['.'] + (mid + ['.'] + ext), '.');
            && |parts| >= 2 && parts[|parts| - 2] == mid
            && Join(parts[..|parts| - 2] + parts[|parts| - 1..], '.') == stem + ['.'] + ext
  {
    SplitTail(stem, mid, ext);
    var ps := Split(stem, '.');
    DropSecondLast(ps, mid, ext);
    calc {
      Join(ps + [ext], '.');
      { JoinAppend(ps, ext, '.'); }
      Join(ps, '.') + ['.'] + ext;
      { JoinSplit(stem, '.'); }
      stem + ['.'] + ext;
    }
  }

  lemma DropSecondLast(ps: seq<string>, mid: string, ext: string)
    ensures var parts := ps + [mid, ext]; parts[..|parts| - 2] + parts[|parts| - 1..] == ps + [ext]
  {
    var parts := ps + [mid, ext];
    assert parts[..|parts| - 2] == ps;
    assert parts[|parts| - 1..] == [ext];
  }

  /** `stem.uncompressed.ext` becomes `stem.ext`. */
  lemma OutNameStrips(stem: string, ext: string)
    requires '.' !in ext
    ensures OutName(stem + ".uncompressed." + ext) == Named(stem + "." + ext)
  {
    var mid := "uncompressed";
    assert '.' !in mid;
    JoinTail(stem, mid, ext);
    StemDot(stem, ext);
  }

  /** The example from the module's message. */
  lemma OutNameExample()
    ensures OutName("a.b.uncompressed.h5") == Named("a.b.h5")
  {
    OutNameStrips("a.b", "h5");
    assert "a.b" + ".uncompressed." + "h5" == "a.b.uncompressed.h5";
    assert "a.b" + "." + "h5" == "a.b.h5";
  }

  /** A name without a dot is one part, so `parts[-2]` fails; a name with a
      dot has at least two parts. */
  lemma OutNameIndexError(name: string)
    ensures OutName(name) == Refused(IndexError) <==> '.' !in name
  {
    if '.' !in name {
      SplitNoSep(name, '.');
    } else {
      var i :| 0 <= i < |name| && name[i] == '.';
      assert name == name[..i] + ['.'] + name[i + 1..];
      SplitAround(name[..i], name[i + 1..], '.');
    }
  }

  /** Joining two parts puts one dot between them. */
  lemma JoinPair(mid: string, ext: string)
    ensures Join([mid, ext], '.') == mid + ['.'] + ext
  {
    assert [mid, ext][1..] == [ext];
  }

  /** Joining the parts `pre + [mid, ext]` for a non-empty `pre`. */
  lemma JoinLastTwo(pre: seq<string>, mid: string, ext: string)
    requires |pre| > 0
    ensures Join(pre + [mid, ext], '.') == Join(pre, '.') + ['.'] + (mid + ['.'] + ext)
  {
    var j := Join(pre, '.');
    assert pre + [mid, ext] == (pre + [mid]) + [ext];
    calc {
      Join(pre + [mid, ext], '.');
      { JoinAppend(pre + [mid], ext, '.'); }
      Join(pre + [mid], '.') + ['.'] + ext;
      { JoinAppend(pre, mid, '.'); }
      j + ['.'] + mid + ['.'] + ext;
      { SeqAssoc(j, mid, ext); }
      j + ['.'] + (mid + ['.'] + ext);
    }
  }

  lemma SeqAssoc(j: string, mid: string, ext: string)
    ensures j + ['.'] + mid + ['.'] + ext == j + ['.'] + (mid + ['.'] + ext)
  {
  }

  /** Conversely, an accepted name is `stem.uncompressed.ext` or
      `uncompressed.ext` with a dot-free `ext`, and its output name is
      `stem.ext` or `ext`. */
  lemma OutNameShape(name: string) returns (stem: string, ext: string)
    requires OutName(name).Named?
    ensures '.' !in ext
    ensures || (name == stem + ".uncompressed." + ext && OutName(name).outname == stem + "." + ext)
            || (stem == "" && name == "uncompressed." + ext && OutName(name).outname == ext)
  {
    var parts := Split(name, '.');
    SplitPartsFree(name, '.');
    var pre := parts[..|parts| - 2];
    ext := parts[|parts| - 1];
    assert parts == pre + ["uncompressed", ext];
    assert parts[..|parts| - 2] + parts[|parts| - 1..] == pre + [ext];
    JoinSplit(name, '.');
    if |pre| == 0 {
      stem := "";
      assert parts == ["uncompressed", ext];
      JoinPair("uncompressed", ext);
      assert pre + [ext] == [ext];
      UncompressedDot(ext);
    } else {
      stem := Join(pre, '.');
      JoinLastTwo(pre, "uncompressed", ext);
      JoinAppend(pre, ext, '.');
      StemDot(stem, ext);
    }
  }

  lemma UncompressedDot(ext: string)
    ensures "uncompressed" + ['.'] + ext == "uncompressed." + ext
  {
    assert "uncompressed" + ['.'] == "uncompressed.";
  }

  lemma StemDot(stem: string, ext: string)
    ensures stem + ['.'] + ("uncompressed" + ['.'] + ext) == stem + ".uncompressed." + ext
    ensures stem + ['.'] + ext == stem + "." + ext
  {
    UncompressedDot(ext);
    assert ['.'] + "uncompressed." == ".uncompressed.";
  }

  lemma {:induction false} SplitPartsFree(s: string, sep: char)
    ensures forall i :: 0 <= i < |Split(s, sep)| ==> sep !in Split(s, sep)[i]
    decreases |s|
  {
    if s != [] {
      SplitPartsFree(s[1..], sep);
    }
  }

  /** The dataset name `str(j)` of frame j. */
  function Key(j: nat): string { NatToDec(j) }

  /** Chunk length along the frame axis. */
  function Chunk(n: nat): nat { if n < 100 then n else 100 }

  /** The first missing frame index, if any below n. */
  function FirstMissing<T>(inf: map<string, T>, n: nat, from: nat): (m: nat)
    requires from <= n
    ensures from <= m <= n
    ensures forall j :: from <= j < m ==> Key(j) in inf
    ensures m < n ==> Key(m) !in inf
    decreases n - from
  {
    if from == n || Key(from) !in inf then from else FirstMissing(inf, n, from + 1)
  }

  datatype Outcome =
    | Done(outname: string, blocks: nat, partial: nat)
    | NameRefused(error: NameError)
    | KeyError(key: string)   // a dataset the copy reads is not in the file

  /** `compress_h5(name)` with the input file's datasets `inf`; `zero` is the
      fill value of a fresh frame buffer.  `images` is the stacked dataset,
      `written` the output slots assigned, in order. */
  method Compress<T>(name: string, inf: map<string, T>, zero: T)
    returns (outcome: Outcome, images: array<T>, written: seq<nat>)
    ensures OutName(name).Refused? ==> outcome == NameRefused(OutName(name).error) && written == []
    ensures OutName(name).Named? && "1" !in inf ==> outcome == KeyError("1") && written == []
    ensures OutName(name).Named? && "1" in inf ==>
              var n := |inf|;
              var c := Chunk(n);
              var m := FirstMissing(inf, n, 0);
              && images.Length == n
              && (m == n ==>
                    && outcome == Done(OutName(name).outname, Blocks(n, c), n - Blocks(n, c) * c)
                    && written == seq(n, j => j)
                    && forall j :: 0 <= j < n ==> images[j] == inf[Key(j)])
              && (m < n ==>
                    && outcome == KeyError(Key(m))
                    && written == seq(Blocks(m, c) * c, j => j)
                    && forall j :: 0 <= j < Blocks(m, c) * c ==> images[j] == inf[Key(j)])
  {
    written := [];
    images := new T[0];
    var named := OutName(name);
    if named.Refused? {
      outcome := NameRefused(named.error);
      return;
    }
    if "1" !in inf {
      outcome := KeyError("1");
      return;
    }
    var n := |inf|;
    var chunk := Chunk(n);
    images := new T[n](_ => zero);
    var blocks, partial, miss;
    blocks, partial, written, miss := CopyFrames(inf, n, chunk, images, zero);
    if miss.Some? {
      outcome := KeyError(Key(miss.value));
      return;
    }
    outcome := Done(named.outname, blocks, partial);
  }

  /** The copy: whole chunks, then the partial chunk if one remains. */
  method CopyFrames<T>(inf: map<string, T>, n: nat, chunk: nat, images: array<T>, zero: T)
    returns (blocks: nat, partial: nat, written: seq<nat>, miss: Option<nat>)
    requires 0 < chunk && images.Length == n
    modifies images
    ensures miss.None? ==> FirstMissing(inf, n, 0) == n && written == seq(n, j => j)
    ensures miss.None? ==> blocks == Blocks(n, chunk) && partial == n - blocks * chunk
    ensures miss.Some? ==> miss.value == FirstMissing(inf, n, 0) < n
    ensures miss.Some? ==> written == seq(Blocks(miss.value, chunk) * chunk, j => j)
    ensures forall j :: 0 <= j < |written| ==> images[j] == inf[Key(j)]
  {
    var start;
    blocks, start, written, miss := CopyBlocks(inf, n, chunk, images, zero);
    if miss.Some? {
      partial := 0;
      return;
    }
    partial := n - start;
    if start < n {
      var pbuf := new T[partial](_ => zero);
      miss := ReadFrames(inf, start, partial, pbuf);
      if miss.Some? {
        PartialMiss(inf, n, chunk, blocks, miss.value);
        return;
      }
      StoreFrames(pbuf, images, start, partial);
      forall j | start <= j < n
        ensures images[j] == inf[Key(j)]
      {
        assert images[start + (j - start)] == pbuf[j - start];
      }
      SlotsAppend(start, partial);
      written := written + seq(partial, k => start + k);
    }
    AllPresent(inf, n);
  }

  /** The `while (block+1)*chunk <= n_frames` loop: whole chunks, each read
      into `buffer` and then stored.  On a missing dataset it reports the
      first missing frame. */
  method CopyBlocks<T>(inf: map<string, T>, n: nat, chunk: nat, images: array<T>, zero: T)
    returns (block: nat, start: nat, written: seq<nat>, miss: Option<nat>)
    requires 0 < chunk && images.Length == n
    modifies images
    ensures miss.None? ==> start == block * chunk && start <= n < start + chunk
    ensures miss.None? ==> Blocks(n, chunk) == block && start <= FirstMissing(inf, n, 0)
    ensures miss.None? ==> written == seq(start, j => j)
    ensures miss.Some? ==> miss.value == FirstMissing(inf, n, 0) < n
    ensures miss.Some? ==> written == seq(Blocks(miss.value, chunk) * chunk, j => j)
    ensures forall j :: 0 <= j < |written| ==> images[j] == inf[Key(j)]
  {
    ghost var m := FirstMissing(inf, n, 0);
    var buffer := new T[chunk](_ => zero);
    block, start, written := 0, 0, [];
    while (block + 1) * chunk <= n
      invariant start == block * chunk && start <= n && start <= m
      invariant written == seq(start, j => j)
      invariant forall j :: 0 <= j < start ==> images[j] == inf[Key(j)]
      decreases n - start
    {
      assert (block + 1) * chunk == start + chunk;
      miss := ReadFrames(inf, start, chunk, buffer);
      if miss.Some? {
        FirstMissingIs(inf, n, miss.value);
        BlocksUnique(m, chunk, block);
        return;
      }
      StoreFrames(buffer, images, start, chunk);
      forall j | start <= j < start + chunk
        ensures images[j] == inf[Key(j)]
      {
        assert images[start + (j - start)] == buffer[j - start];
      }
      SlotsAppend(start, chunk);
      written := written + seq(chunk, k => start + k);
      block, start := block + 1, start + chunk;
    }
    assert (block + 1) * chunk == start + chunk;
    BlocksUnique(n, chunk, block);
    miss := None;
  }

  /** A frame missing from the partial chunk lies in the block after the
      last whole one. */
  lemma PartialMiss<T>(inf: map<string, T>, n: nat, chunk: nat, block: nat, x: nat)
    requires 0 < chunk && block * chunk <= x < n < block * chunk + chunk
    requires Key(x) !in inf && forall j :: 0 <= j < x ==> Key(j) in inf
    ensures FirstMissing(inf, n, 0) == x && Blocks(x, chunk) * chunk == block * chunk
  {
    FirstMissingIs(inf, n, x);
    BlocksUnique(x, chunk, block);
  }

  /** With every frame below n present, none is missing. */
  lemma AllPresent<T>(inf: map<string, T>, n: nat)
    requires forall j :: 0 <= j < n ==> Key(j) in inf
    ensures FirstMissing(inf, n, 0) == n
  {
  }

  /** `buffer[..., i] = inf[str(start + i)]` for i in range(len): stops at the
      first frame whose dataset is missing. */
  method ReadFrames<T>(inf: map<string, T>, start: nat, len: nat, buffer: array<T>)
    returns (miss: Option<nat>)
    requires len <= buffer.Length
    requires forall j :: 0 <= j < start ==> Key(j) in inf
    modifies buffer
    ensures miss.None? ==> forall j :: start <= j < start + len ==> Key(j) in inf
    ensures miss.None? ==> forall k :: 0 <= k < len ==> buffer[k] == inf[Key(start + k)]
    ensures miss.Some? ==> start <= miss.value < start + len && Key(miss.value) !in inf
    ensures miss.Some? ==> forall j :: 0 <= j < miss.value ==> Key(j) in inf
  {
    var i := 0;
    while i < len
      invariant 0 <= i <= len
      invariant forall j :: 0 <= j < start + i ==> Key(j) in inf
      invariant forall k :: 0 <= k < i ==> buffer[k] == inf[Key(start + k)]
    {
      var key := Key(start + i);
      if key !in inf {
        return Some(start + i);
      }
      buffer[i] := inf[key];
      i := i + 1;
    }
    return None;
  }

  /** `outf['images'][..., start:start + len] = buffer`. */
  method StoreFrames<T>(buffer: array<T>, images: array<T>, start: nat, len: nat)
    requires len <= buffer.Length && start + len <= images.Length && buffer != images
    modifies images
    ensures forall k :: 0 <= k < len ==> images[start + k] == buffer[k]
    ensures forall j :: 0 <= j < images.Length && !(start <= j < start + len) ==> images[j] == old(images[j])
  {
    var k := 0;
    while k < len
      invariant 0 <= k <= len
      invariant forall k' :: 0 <= k' < k ==> images[start + k'] == buffer[k']
      invariant forall j :: 0 <= j < images.Length && !(start <= j < start + k) ==> images[j] == old(images[j])
    {
      images[start + k] := buffer[k];
      k := k + 1;
    }
  }

  lemma SlotsAppend(a: nat, b: nat)
    ensures seq(a, j => j) + seq(b, k => a + k) == seq(a + b, j => j)
  {
  }

  /** The first missing frame is the x with every frame below x present and
      frame x absent. */
  lemma FirstMissingIs<T>(inf: map<string, T>, n: nat, x: nat)
    requires x < n && Key(x) !in inf
    requires forall j :: 0 <= j < x ==> Key(j) in inf
    ensures FirstMissing(inf, n, 0) == x
  {
  }

  /** The number of whole chunks of c frames in n frames. */
  function Blocks(n: nat, c: nat): (b: nat)
    requires c > 0
    ensures b * c <= n < b * c + c
    decreases n
  {
    if n < c then 0 else 1 + Blocks(n - c, c)
  }

  /** That number is the only one with the property. */
  lemma {:induction false} BlocksUnique(n: nat, c: nat, q: nat)
    requires c > 0 && q * c <= n < q * c + c
    ensures Blocks(n, c) == q
    decreases n
  {
    if q > 0 {
      assert q * c == (q - 1) * c + c;
      BlocksUnique(n - c, c, q - 1);
    }
  }

  /** It is `n / c`, and what remains is `n % c`. */
  lemma {:induction false} BlocksDiv(n: nat, c: nat)
    requires c > 0
    ensures Blocks(n, c) == n / c && n - Blocks(n, c) * c == n % c
    decreases n
  {
    if n >= c {
      BlocksDiv(n - c, c);
      DivStep(n, c);
    }
  }
  lemma DivStep(n: nat, c: nat)
    requires 0 < c <= n
    ensures n / c == (n - c) / c + 1 && n % c == (n - c) % c
  {
    var q, r := (n - c) / c, (n - c) % c;
    assert n - c == q * c + r && 0 <= r < c;
    assert n == (q + 1) * c + r;
    DivUnique(n, c, q + 1, r);
  }

  /** Euclidean division is determined by quotient and remainder. */
  lemma DivUnique(n: int, c: int, q: int, r: int)
    requires 0 < c && 0 <= r < c && n == q * c + r
    ensures n / c == q && n % c == r
  {
    var q', r' := n / c, n % c;
    assert n == q' * c + r' && 0 <= r' < c;
    var d := q - q';
    assert d * c == r' - r;
    MulBounds(d, c);
  }

  lemma MulBounds(d: int, c: int)
    requires 0 < c
    ensures d >= 1 ==> d * c >= c
    ensures d <= -1 ==> d * c <= -c
  {
    if d >= 1 {
      assert d * c == (d - 1) * c + c;
    } else if d <= -1 {
      assert d * c == (d + 1) * c - c;
    }
  }
}
