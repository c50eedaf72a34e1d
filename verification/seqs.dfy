/** Joining a list of pieces into one sequence, and cutting a sequence back
    into equal-width pieces. The loader joins received chunks this way and
    the result shaper cuts a flat row-major value list into rows. */
module Seqs {

  /** The pieces joined end to end, in order. */
  function Concat<T>(pieces: seq<seq<T>>): seq<T>
  {
    if pieces == [] then [] else Concat(pieces[..|pieces| - 1]) + pieces[|pieces| - 1]
  }

  /** The sum of the lengths of the pieces. */
  function TotalLength<T>(pieces: seq<seq<T>>): nat
  {
    if pieces == [] then 0 else TotalLength(pieces[..|pieces| - 1]) + |pieces[|pieces| - 1]|
  }

  /** Appending one piece appends its elements to the join. */
  lemma ConcatSnoc<T>(pieces: seq<seq<T>>, piece: seq<T>)
    ensures Concat(pieces + [piece]) == Concat(pieces) + piece
    ensures TotalLength(pieces + [piece]) == TotalLength(pieces) + |piece|
  {
    assert (pieces + [piece])[..|pieces|] == pieces;
  }

  /** The join is exactly as long as all the pieces together. */
  lemma {:induction false} ConcatLength<T>(pieces: seq<seq<T>>)
    ensures |Concat(pieces)| == TotalLength(pieces)
  {
    if pieces != [] {
      ConcatLength(pieces[..|pieces| - 1]);
    }
  }

  /** The total length of a prefix of the pieces only grows with the prefix. */
  lemma {:induction false} TotalLengthMonotone<T>(pieces: seq<seq<T>>, i: nat, j: nat)
    requires i <= j <= |pieces|
    ensures TotalLength(pieces[..i]) <= TotalLength(pieces[..j])
  {
    if i < j {
      assert pieces[..j][..j - 1] == pieces[..j - 1];
      TotalLengthMonotone(pieces, i, j - 1);
    }
  }

  /** Piece i occupies the join starting at the offset equal to the total
      length of the pieces before it: no gap, no overlap, receipt order. */
  lemma {:induction false} ConcatAt<T>(pieces: seq<seq<T>>, i: nat, k: nat)
    requires i < |pieces| && k < |pieces[i]|
    ensures TotalLength(pieces[..i]) + k < |Concat(pieces)|
    ensures Concat(pieces)[TotalLength(pieces[..i]) + k] == pieces[i][k]
  {
    var n := |pieces| - 1;
    ConcatLength(pieces[..n]);
    if i == n {
      assert pieces[..i] == pieces[..n];
    } else {
      assert pieces[..n][..i] == pieces[..i];
      ConcatAt(pieces[..n], i, k);
    }
  }

  /** Euclidean division by a positive width. */
  lemma DivMod(n: int, width: int)
    requires width > 0
    ensures n == width * (n / width) + n % width && 0 <= n % width < width
  {
  }

  lemma MulNonNegative(width: int, d: int)
    requires width > 0 && d >= 0
    ensures width * d >= 0
  {
  }

  /** A multiple of the width that lies strictly between -width and width is zero. */
  lemma MulSmall(width: int, d: int, e: int)
    requires width > 0 && width * d == e && -width < e < width
    ensures d == 0
  {
    if d >= 1 {
      assert width * d == width * (d - 1) + width;
      MulNonNegative(width, d - 1);
    } else if d <= -1 {
      assert width * d == -(width * (-(d + 1))) - width;
      MulNonNegative(width, -(d + 1));
    }
  }

  /** width * q is a multiple of width with quotient q. */
  lemma MultipleOf(q: int, width: int)
    requires width > 0
    ensures (width * q) % width == 0 && (width * q) / width == q
  {
    var n := width * q;
    DivMod(n, width);
    assert width * (q - n / width) == n % width;
    MulSmall(width, q - n / width, n % width);
  }

  /** Removing one width from a non-empty multiple of the width leaves a
      multiple of the width with one piece fewer. */
  lemma DivStep(n: nat, width: nat)
    requires width > 0 && n > 0 && n % width == 0
    ensures n >= width && (n - width) % width == 0 && (n - width) / width == n / width - 1
  {
    var q := n / width;
    DivMod(n, width);
    if q <= 0 {
      MulNonNegative(width, -q);
    }
    assert n - width == width * (q - 1);
    MultipleOf(q - 1, width);
  }

  /** Adding one width to a multiple of the width keeps it a multiple. */
  lemma LengthStep(n: nat, width: nat)
    requires width > 0 && n % width == 0
    ensures (n + width) % width == 0
  {
    DivMod(n, width);
    assert n + width == width * (n / width + 1);
    MultipleOf(n / width + 1, width);
  }

  /** The sequence cut into consecutive pieces of `width` elements. */
  function Chunks<T>(s: seq<T>, width: nat): seq<seq<T>>
    requires width > 0 && |s| % width == 0
    decreases |s|
  {
    if |s| == 0 then []
    else
      DivStep(|s|, width);
      Chunks(s[..|s| - width], width) + [s[|s| - width..]]
  }

  /** Cutting then joining gives back the sequence, and there are |s| / width pieces. */
  lemma {:induction false} ConcatChunks<T>(s: seq<T>, width: nat)
    requires width > 0 && |s| % width == 0
    ensures |Chunks(s, width)| == |s| / width
    ensures Concat(Chunks(s, width)) == s
    decreases |s|
  {
    if |s| > 0 {
      DivStep(|s|, width);
      var init := s[..|s| - width];
      ConcatChunks(init, width);
      ConcatSnoc(Chunks(init, width), s[|s| - width..]);
    }
  }

  /** Joining pieces that all have `width` elements and cutting the join
      again gives back the pieces. */
  lemma {:induction false} ChunksConcat<T>(pieces: seq<seq<T>>, width: nat)
    requires width > 0
    requires forall i | 0 <= i < |pieces| :: |pieces[i]| == width
    ensures |Concat(pieces)| % width == 0
    ensures Chunks(Concat(pieces), width) == pieces
  {
    if pieces != [] {
      var n := |pieces| - 1;
      var init := pieces[..n];
      ChunksConcat(init, width);
      var joined := Concat(init);
      var s := joined + pieces[n];
      assert Concat(pieces) == s;
      LengthStep(|joined|, width);
      DivStep(|s|, width);
      assert s[..|s| - width] == joined;
      assert s[|s| - width..] == pieces[n];
      assert pieces == init + [pieces[n]];
    }
  }

  lemma MulSucc(i: nat, width: nat)
    ensures (i + 1) * width == i * width + width
  {
  }

  lemma MulSplit(i: nat, q: nat, width: nat)
    requires i < q
    ensures width * q == (i + 1) * width + width * (q - i - 1)
  {
  }

  /** Where piece i of q pieces of `width` elements starts and ends. */
  lemma PieceBounds(i: nat, q: nat, width: nat)
    requires width > 0 && i < q
    ensures (i + 1) * width == i * width + width
    ensures (i + 1) * width <= width * q
    ensures i + 1 < q ==> (i + 1) * width <= width * q - width
    ensures i + 1 == q ==> i * width == width * q - width
  {
    MulSucc(i, width);
    MulSplit(i, q, width);
    MulNonNegative(width, q - i - 1);
    if i + 1 < q {
      MulSucc(i + 1, width);
      MulSplit(i + 1, q, width);
      MulNonNegative(width, q - i - 2);
    }
  }

  /** Piece i of a sequence of n elements cut into pieces of `width` lies
      inside it, and inside all but the last piece unless it is the last. */
  lemma SliceBounds(n: nat, width: nat, i: nat)
    requires width > 0 && n % width == 0 && i < n / width
    ensures i * width + width <= n
    ensures i + 1 < n / width ==> i * width + width <= n - width
    ensures i + 1 == n / width ==> i * width == n - width
  {
    DivMod(n, width);
    PieceBounds(i, n / width, width);
  }

  /** The cut has |s| / width pieces. This repeats the count of ConcatChunks
      without its join, which keeps the proof of ChunksAt small. */
  lemma {:induction false} ChunksCount<T>(s: seq<T>, width: nat)
    requires width > 0 && |s| % width == 0
    ensures |Chunks(s, width)| == |s| / width
    decreases |s|
  {
    if |s| > 0 {
      DivStep(|s|, width);
      ChunksCount(s[..|s| - width], width);
    }
  }

  /** Piece i of the cut is the slice of s from i * width to i * width + width. */
  lemma {:induction false} ChunksAt<T>(s: seq<T>, width: nat, i: nat)
    requires width > 0 && |s| % width == 0 && i < |s| / width
    ensures |Chunks(s, width)| == |s| / width
    ensures i * width + width <= |s|
    ensures Chunks(s, width)[i] == s[i * width..i * width + width]
    decreases |s|
  {
    ChunksCount(s, width);
    SliceBounds(|s|, width, i);
    DivStep(|s|, width);
    var lo := i * width;
    var init := s[..|s| - width];
    assert Chunks(s, width) == Chunks(init, width) + [s[|s| - width..]];
    if i + 1 < |s| / width {
      ChunksAt(init, width, i);
      assert init[lo..lo + width] == s[lo..lo + width];
    }
  }
}
