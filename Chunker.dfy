/** `chunk_text`: cut a text into fixed-size character windows, left to right. */
module Chunker {

  /** `"".join(parts)`. */
  function Concat(parts: seq<string>): string {
    if parts == [] then "" else parts[0] + Concat(parts[1..])
  }

  lemma {:induction false} ConcatAppend(a: seq<string>, b: seq<string>)
    ensures Concat(a + b) == Concat(a) + Concat(b)
  {
    if a != [] {
      assert (a + b)[1..] == a[1..] + b;
      ConcatAppend(a[1..], b);
    } else {
      assert a + b == b;
    }
  }

  /** Reference definition of the windows: a full window of `size`
      characters, then the windows of the rest. */
  function Chunks(text: string, size: nat): seq<string>
    requires size > 0
    decreases |text|
  {
    if text == [] then []
    else if |text| <= size then [text]
    else [text[..size]] + Chunks(text[size..], size)
  }

  /** Number of windows: the ceiling of `n / size`. */
  function CeilDiv(n: nat, size: nat): nat
    requires size > 0
  {
    (n + size - 1) / size
  }

  /** `chunk_text(text, max_chars)`: `range(0, len(text), max_chars)` gives the
      window starts, and each window is `text[i:i+max_chars]`, cut short at the end. */
  method ChunkText(text: string, maxChars: nat) returns (chunks: seq<string>)
    requires maxChars > 0
    ensures chunks == Chunks(text, maxChars)
    ensures Concat(chunks) == text
    ensures |chunks| == CeilDiv(|text|, maxChars)
  {
    chunks := [];
    var i := 0;
    while i < |text|
      invariant 0 <= i <= |text| + maxChars
      invariant i < |text| ==> chunks + Chunks(text[i..], maxChars) == Chunks(text, maxChars)
      invariant i >= |text| ==> chunks == Chunks(text, maxChars)
      decreases |text| - i
    {
      var end := if i + maxChars < |text| then i + maxChars else |text|;
      var rest := text[i..];
      if |rest| <= maxChars {
        assert rest != [] && rest == text[i..end];
        assert Chunks(rest, maxChars) == [text[i..end]];
      } else {
        assert rest[..maxChars] == text[i..end];
        assert rest[maxChars..] == text[end..];
        assert Chunks(rest, maxChars) == [text[i..end]] + Chunks(text[end..], maxChars);
      }
      chunks := chunks + [text[i..end]];
      i := i + maxChars;
    }
    ChunksConcat(text, maxChars);
    ChunksCount(text, maxChars);
  }

  /** Joining the windows in order gives back the text exactly. */
  lemma {:induction false} ChunksConcat(text: string, size: nat)
    requires size > 0
    ensures Concat(Chunks(text, size)) == text
    decreases |text|
  {
    if |text| > size {
      ChunksConcat(text[size..], size);
      assert text == text[..size] + text[size..];
    } else if text != [] {
      assert Concat([text]) == text + Concat([]);
    }
  }

  lemma MulMono(a: int, b: int, c: int)
    requires a <= b && c >= 0
    ensures a * c <= b * c
  {
  }

  lemma DivUnique(n: int, size: int, q: int, r: int)
    requires size > 0 && 0 <= r < size && n == q * size + r
    ensures n / size == q
  {
    var q' := n / size;
    if q' > q {
      MulMono(q + 1, q', size);
      assert false;
    } else if q' < q {
      MulMono(q' + 1, q, size);
      assert false;
    }
  }

  lemma DivStep(x: nat, size: nat)
    requires size > 0
    ensures (x + size) / size == x / size + 1
  {
    var q, r := x / size, x % size;
    assert x + size == (q + 1) * size + r;
    DivUnique(x + size, size, q + 1, r);
  }

  /** There are `ceil(len(text) / size)` windows; none for the empty text. */
  lemma {:induction false} ChunksCount(text: string, size: nat)
    requires size > 0
    ensures |Chunks(text, size)| == CeilDiv(|text|, size)
    decreases |text|
  {
    if |text| > size {
      ChunksCount(text[size..], size);
      DivStep(|text| - 1, size);
      assert |text| - size + size - 1 == |text| - 1;
      assert |text| + size - 1 == (|text| - 1) + size;
    } else if text != [] {
      assert |text| + size - 1 < 2 * size;
      assert (|text| + size - 1) / size == 1;
    }
  }

  /** Every window is non-empty and at most `size` long, and all but the last
      are exactly `size` long. */
  lemma {:induction false} ChunksSizes(text: string, size: nat)
    requires size > 0
    ensures forall i :: 0 <= i < |Chunks(text, size)| ==> 0 < |Chunks(text, size)[i]| <= size
    ensures forall i :: 0 <= i < |Chunks(text, size)| - 1 ==> |Chunks(text, size)[i]| == size
    decreases |text|
  {
    if |text| > size {
      ChunksSizes(text[size..], size);
    }
  }

  /** Window `i` is `text[i*size : (i+1)*size]`, cut short at the end of the text. */
  lemma {:induction false} ChunkAt(text: string, size: nat, i: nat)
    requires size > 0
    requires i < |Chunks(text, size)|
    ensures i * size < |text|
    ensures Chunks(text, size)[i] == text[i * size .. if (i + 1) * size < |text| then (i + 1) * size else |text|]
    decreases i
  {
    if i > 0 {
      var rest := text[size..];
      ChunkAt(rest, size, i - 1);
      assert (i - 1) * size + size == i * size;
      assert i * size + size == (i + 1) * size;
    }
  }
}
