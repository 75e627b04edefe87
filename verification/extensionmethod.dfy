/** `ExtensionMethod.Split`: cuts a collection into consecutive chunks of a
    given size, read through one shared enumerator. */
module ExtensionMethod {
  import opened Wrappers
  import opened Seqs

  /** `Math.Clamp(value, min, max)`: .NET throws an `ArgumentException` when
      `min > max`, and otherwise returns the nearest value in `[min, max]`. */
  function Clamp(value: int, min: int, max: int): (r: Outcome<int>)
    ensures r.Threw? <==> min > max
    ensures r.Threw? ==> r.error == Argument
    ensures r.Returned? ==> min <= r.value <= max
    ensures r.Returned? && min <= value <= max ==> r.value == value
    ensures r.Returned? && value < min ==> r.value == min
    ensures r.Returned? && value > max ==> r.value == max
  {
    if min > max then Threw(Argument)
    else if value < min then Returned(min)
    else if value > max then Returned(max)
    else Returned(value)
  }

  /** The first line of `Split`, `Math.Clamp(splitSize, 1, splitSize)`: the
      identity on sizes of at least 1, and an `ArgumentException` otherwise. */
  lemma ClampOfSplitSize(splitSize: int)
    ensures splitSize >= 1 ==> Clamp(splitSize, 1, splitSize) == Returned(splitSize)
    ensures splitSize < 1 ==> Clamp(splitSize, 1, splitSize) == Threw(Argument)
  {
  }

  /** The chunks `Split` yields when each one is read to the end before the
      next is requested: `size` elements each, the last one possibly shorter. */
  function Chunks<T>(xs: seq<T>, size: nat): (r: seq<seq<T>>)
    requires size >= 1
    ensures Flatten(r) == xs
    ensures forall k | 0 <= k < |r| :: 0 < |r[k]| <= size
    ensures forall k | 0 <= k < |r| - 1 :: |r[k]| == size
    decreases |xs|
  {
    if |xs| == 0 then []
    else if |xs| <= size then
      assert Flatten([xs]) == xs + Flatten([xs][1..]);
      [xs]
    else
      var rest := Chunks(xs[size..], size);
      assert ([xs[..size]] + rest)[1..] == rest;
      assert xs[..size] + xs[size..] == xs;
      [xs[..size]] + rest
  }

  /** `n` elements make ceil(n / size) chunks. */
  lemma {:induction false} ChunksCount<T>(xs: seq<T>, size: nat)
    requires size >= 1
    ensures (|Chunks(xs, size)| - 1) * size < |xs| <= |Chunks(xs, size)| * size
    decreases |xs|
  {
    if |xs| > size {
      var k := |Chunks(xs[size..], size)|;
      ChunksCount(xs[size..], size);
      assert |Chunks(xs, size)| == k + 1;
      assert (k + 1) * size == k * size + size;
    }
  }

  /** `n` is a whole number of chunks of `size`. */
  predicate MultipleOf(n: nat, size: nat)
    requires size >= 1
    decreases n
  {
    n == 0 || (n >= size && MultipleOf(n - size, size))
  }

  /** `Split(collection, splitSize)`: the clamp throws for a size below 1;
      otherwise the collection in chunks of `splitSize`. The exception is
      raised when enumeration starts, which this value-level model does not
      distinguish. */
  function Split<T>(xs: seq<T>, splitSize: int): (r: Outcome<seq<seq<T>>>)
    ensures r.Threw? <==> splitSize < 1
    ensures r.Threw? ==> r.error == Argument
    ensures r.Returned? ==> Flatten(r.value) == xs
    ensures r.Returned? ==> forall k | 0 <= k < |r.value| :: 0 < |r.value[k]| <= splitSize
    ensures r.Returned? ==> forall k | 0 <= k < |r.value| - 1 :: |r.value[k]| == splitSize
    ensures r.Returned? ==> (|r.value| - 1) * splitSize < |xs| <= |r.value| * splitSize
  {
    match Clamp(splitSize, 1, splitSize)
    case Threw(e) => Threw(e)
    case Returned(size) =>
      ChunksCount(xs, size);
      Returned(Chunks(xs, size))
  }

  /** `IEnumerator.MoveNext` over `xs` at position `pos` (-1 before the first
      element): the next position and whether it holds an element. Past the
      end it stays at `|xs|` and keeps answering false. */
  function MoveNext<T>(xs: seq<T>, pos: int): (r: (int, bool))
    requires -1 <= pos <= |xs|
    ensures r.1 <==> pos + 1 < |xs|
    ensures r.1 ==> r.0 == pos + 1
    ensures !r.1 ==> r.0 == |xs|
  {
    if pos + 1 < |xs| then (pos + 1, true) else (|xs|, false)
  }

  /** Appending a chunk after a run of full chunks appends it to their list. */
  lemma {:induction false} ChunksSnoc<T>(a: seq<T>, c: seq<T>, size: nat)
    requires size >= 1 && MultipleOf(|a|, size) && 0 < |c| <= size
    ensures Chunks(a + c, size) == Chunks(a, size) + [c]
    decreases |a|
  {
    if |a| == 0 {
      assert a + c == c;
    } else {
      assert |a| >= size;
      assert (a + c)[..size] == a[..size];
      assert (a + c)[size..] == a[size..] + c;
      ChunksSnoc(a[size..], c, size);
      if |a| == size {
        assert a[size..] == [];
      }
    }
  }

  /** One chunk read at a chunk boundary extends the chunks read so far. */
  lemma ChunkStep<T>(xs: seq<T>, pos: int, size: nat, chunk: seq<T>)
    requires size >= 1 && 0 <= pos < |xs| && MultipleOf(pos, size)
    requires chunk == xs[pos..if pos + size <= |xs| then pos + size else |xs|]
    ensures pos + size < |xs| ==> Chunks(xs[..pos], size) + [chunk] == Chunks(xs[..pos + size], size)
    ensures pos + size >= |xs| ==> Chunks(xs[..pos], size) + [chunk] == Chunks(xs, size)
    ensures MultipleOf(pos + size, size)
  {
    var end := if pos + size <= |xs| then pos + size else |xs|;
    SliceJoin(xs, pos, end);
    ChunksSnoc(xs[..pos], chunk, size);
    assert xs[..|xs|] == xs;
    assert MultipleOf(pos + size, size) by {
      assert pos + size - size == pos;
    }
  }

  lemma SliceJoin<T>(xs: seq<T>, pos: nat, end: nat)
    requires pos <= end <= |xs|
    ensures xs[..pos] + xs[pos..end] == xs[..end]
  {
  }

  /** `NextChunk`: the do-while loop that yields `Current` and then, while
      the decremented size stays positive, advances the shared enumerator. */
  method NextChunk<T>(xs: seq<T>, pos: int, splitSize: nat) returns (chunk: seq<T>, last: int)
    requires 0 <= pos < |xs| && splitSize >= 1
    ensures chunk == xs[pos..if pos + splitSize <= |xs| then pos + splitSize else |xs|]
    ensures pos + splitSize <= |xs| ==> last == pos + splitSize - 1
    ensures pos + splitSize > |xs| ==> last == |xs|
  {
    chunk := [];
    var at, remaining, going := pos, splitSize, true;
    while going
      invariant pos <= at <= |xs|
      invariant going ==> at < |xs| && remaining == splitSize - (at - pos) && remaining >= 1
      invariant going ==> chunk == xs[pos..at]
      invariant !going ==> chunk == xs[pos..if pos + splitSize <= |xs| then pos + splitSize else |xs|]
      invariant !going && pos + splitSize <= |xs| ==> at == pos + splitSize - 1
      invariant !going && pos + splitSize > |xs| ==> at == |xs|
      decreases |xs| - at + (if going then 1 else 0)
    {
      chunk := chunk + [xs[at]];
      remaining := remaining - 1;
      if remaining > 0 {
        var next := MoveNext(xs, at);
        at, going := next.0, next.1;
      } else {
        going := false;
      }
    }
    last := at;
  }

  /** The enumerator-driven loop of `Split`, each chunk read to the end before
      the next `MoveNext`: it yields exactly the chunks of the value model. */
  method SplitEnumerated<T>(xs: seq<T>, splitSize: int) returns (r: Outcome<seq<seq<T>>>)
    ensures r == Split(xs, splitSize)
  {
    var clamped := Clamp(splitSize, 1, splitSize);
    if clamped.Threw? {
      return Threw(clamped.error);
    }
    var size: nat := clamped.value;
    var chunks: seq<seq<T>> := [];
    var next := MoveNext(xs, -1);
    var pos, more := next.0, next.1;
    while more
      invariant more ==> 0 <= pos < |xs| && MultipleOf(pos, size) && chunks == Chunks(xs[..pos], size)
      invariant !more ==> chunks == Chunks(xs, size)
      decreases |xs| - pos + (if more then 1 else 0)
    {
      var chunk, last := NextChunk(xs, pos, size);
      ChunkStep(xs, pos, size, chunk);
      chunks := chunks + [chunk];
      next := MoveNext(xs, last);
      pos, more := next.0, next.1;
    }
    r := Returned(chunks);
  }
}
