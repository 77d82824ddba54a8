/** The fixed-stride cut of `translate_text`:
    `[text[i:i+max_length] for i in range(0, len(text), max_length)]`. */
module Chunking {
  import opened Strings

  /** `max_length`: the longest text the translator accepts in one call. */
  const MaxLength: nat := 500

  function Min(a: int, b: int): int {
    if a <= b then a else b
  }

  /** Python's `s[i:j]` for non-negative bounds: `j` is clamped to the
      length, and the slice is empty when `i` is not below the clamped `j`. */
  function Slice(s: string, i: nat, j: nat): string {
    var hi := Min(j, |s|);
    if i < hi then s[i..hi] else []
  }

  /** `range(0, n, max_length)`. */
  function ChunkStarts(n: nat): seq<nat> {
    seq((n + MaxLength - 1) / MaxLength, k requires 0 <= k => k * MaxLength)
  }

  /** The list of chunks `translate_text` sends to the translator. */
  function Chunks(text: string): seq<string> {
    var starts := ChunkStarts(|text|);
    seq(|starts|, k requires 0 <= k < |starts| => Slice(text, starts[k], starts[k] + MaxLength))
  }

  /** The range yields exactly the multiples of `max_length` below `n`,
      in increasing order. */
  lemma ChunkStartsAreMultiples(n: nat)
    ensures forall i: nat :: i in ChunkStarts(n) <==> i < n && i % MaxLength == 0
    ensures forall k, l :: 0 <= k < l < |ChunkStarts(n)| ==> ChunkStarts(n)[k] < ChunkStarts(n)[l]
  {
    var starts := ChunkStarts(n);
    forall i: nat | i < n && i % MaxLength == 0 ensures i in starts {
      assert starts[i / MaxLength] == i;
    }
  }

  /** The number of chunks is the ceiling of `len(text) / max_length`;
      in particular empty text gives no chunk at all. */
  lemma ChunkCountIsCeiling(text: string)
    ensures |Chunks(text)| == 0 <==> text == []
    ensures |text| <= |Chunks(text)| * MaxLength
    ensures |Chunks(text)| > 0 ==> (|Chunks(text)| - 1) * MaxLength < |text|
  {
  }

  /** Every chunk is non-empty and at most `max_length` long, and every
      chunk but the last is exactly `max_length` long. */
  lemma ChunkSizes(text: string, k: int)
    requires 0 <= k < |Chunks(text)|
    ensures 0 < |Chunks(text)[k]| <= MaxLength
    ensures k < |Chunks(text)| - 1 ==> |Chunks(text)[k]| == MaxLength
  {
  }

  /** Chunking takes the first `max_length` characters and chunks the rest. */
  lemma ChunksSplit(text: string)
    requires text != []
    ensures var m := Min(MaxLength, |text|);
      Chunks(text) == [text[..m]] + Chunks(text[m..])
  {
    var m := Min(MaxLength, |text|);
    var rest := text[m..];
    var c, r := Chunks(text), Chunks(rest);
    assert |c| == |r| + 1;
    forall k | 0 <= k < |r| ensures c[k + 1] == r[k] {
      assert c[k + 1] == Slice(text, (k + 1) * MaxLength, (k + 1) * MaxLength + MaxLength);
      assert r[k] == Slice(rest, k * MaxLength, k * MaxLength + MaxLength);
    }
    assert c == [text[..m]] + r;
  }

  /** Writing the chunks one after another gives back the text exactly:
      no character is lost, duplicated or moved. */
  lemma {:induction false} ChunksRoundTrip(text: string)
    ensures Concat(Chunks(text)) == text
    decreases |text|
  {
    if text != [] {
      var m := Min(MaxLength, |text|);
      ChunksSplit(text);
      ChunksRoundTrip(text[m..]);
      assert Concat(Chunks(text)) == text[..m] + Concat(Chunks(text[m..]));
      assert text == text[..m] + text[m..];
    }
  }

  /** Chunk `k` starts at offset `k * max_length`: the chunks before it
      are exactly the first `k * max_length` characters. */
  lemma ChunkOffset(text: string, k: int)
    requires 0 <= k < |Chunks(text)|
    ensures k * MaxLength < |text|
    ensures Concat(Chunks(text)[..k]) == text[..k * MaxLength]
  {
    var c := Chunks(text);
    assert c == c[..k] + c[k..];
    ConcatAppend(c[..k], c[k..]);
    ChunksRoundTrip(text);
    PrefixLength(text, k);
  }

  /** The chunks before chunk `k` hold `k * max_length` characters. */
  lemma {:induction false} PrefixLength(text: string, k: int)
    requires 0 <= k < |Chunks(text)|
    ensures |Concat(Chunks(text)[..k])| == k * MaxLength
  {
    if k > 0 {
      var c := Chunks(text);
      PrefixLength(text, k - 1);
      assert c[..k] == c[..k - 1] + [c[k - 1]];
      ConcatAppend(c[..k - 1], [c[k - 1]]);
      ChunkSizes(text, k - 1);
    }
  }

  /** Text whose first part is a whole number of windows is chunked as
      its two parts separately. */
  lemma {:induction false} ChunksAppend(a: string, b: string)
    requires |a| % MaxLength == 0
    ensures Chunks(a + b) == Chunks(a) + Chunks(b)
    decreases |a|
  {
    if a == [] {
      assert a + b == b;
    } else {
      ChunksSplit(a);
      ChunksSplit(a + b);
      assert (a + b)[..MaxLength] == a[..MaxLength];
      assert (a + b)[MaxLength..] == a[MaxLength..] + b;
      ChunksAppend(a[MaxLength..], b);
    }
  }

  /** 1200 characters are cut into chunks of 500, 500 and 200 characters. */
  lemma TwelveHundredCharacters(text: string)
    requires |text| == 1200
    ensures |Chunks(text)| == 3
    ensures |Chunks(text)[0]| == 500 && |Chunks(text)[1]| == 500 && |Chunks(text)[2]| == 200
  {
  }
}
