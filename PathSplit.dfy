/** Mapping a path onto the USTAR `prefix` (at most 154 bytes) and `name`
    (at most 99 bytes) fields at a '/' boundary (src/tar.ts:104-156).
    Paths are UTF-8 bytes; 0x2F never occurs inside a multi-byte sequence, so
    splitting the bytes on 0x2F splits the string on '/'. */
module PathSplit {
  import opened Bytes
  import opened Wrappers

  /** src/tar.ts:59-60: one byte of each field is kept for a terminating NUL. */
  const MAX_PREFIX_LENGTH: nat := 155 - 1
  const MAX_NAME_LENGTH: nat := 100 - 1

  predicate NoSlash(s: seq<Byte>)
  {
    forall i :: 0 <= i < |s| ==> s[i] != SLASH
  }

  /** `path.split('/')`: the segments between slashes; never empty. */
  function Split(p: seq<Byte>): (r: seq<seq<Byte>>)
    ensures |r| >= 1
  {
    if p == [] then [[]]
    else
      var rest := Split(p[1..]);
      if p[0] == SLASH then [[]] + rest else [[p[0]] + rest[0]] + rest[1..]
  }

  /** Segments joined with '/' between consecutive ones. */
  function Join(segs: seq<seq<Byte>>): seq<Byte>
  {
    if |segs| == 0 then []
    else if |segs| == 1 then segs[0]
    else segs[0] + [SLASH] + Join(segs[1..])
  }

  // ---------------------------------------------------------------------------
  // Split and Join are inverse

  lemma {:induction false} JoinOfSplit(p: seq<Byte>)
    ensures Join(Split(p)) == p
    ensures forall i :: 0 <= i < |Split(p)| ==> NoSlash(Split(p)[i])
    decreases |p|
  {
    if p != [] {
      var rest := Split(p[1..]);
      JoinOfSplit(p[1..]);
      if p[0] == SLASH {
        assert ([[]] + rest)[1..] == rest;
      } else {
        var r := [[p[0]] + rest[0]] + rest[1..];
        if |rest| > 1 {
          assert r[1..] == rest[1..];
          assert Join(rest) == rest[0] + [SLASH] + Join(rest[1..]);
        }
        assert p == [p[0]] + p[1..];
        forall i | 0 <= i < |r| ensures NoSlash(r[i]) {
          if i == 0 {
            assert NoSlash(rest[0]);
          } else {
            assert r[i] == rest[i];
          }
        }
      }
    }
  }

  lemma {:induction false} SplitOfJoin(segs: seq<seq<Byte>>)
    requires |segs| >= 1
    requires forall i :: 0 <= i < |segs| ==> NoSlash(segs[i])
    ensures Split(Join(segs)) == segs
    decreases |segs|, |segs[0]|
  {
    var s0 := segs[0];
    if s0 == [] {
      if |segs| > 1 {
        SplitOfJoin(segs[1..]);
        SplitOfJoinEmptyHead(segs);
      }
    } else {
      var segs' := [s0[1..]] + segs[1..];
      assert NoSlash(segs'[0]);
      assert forall i :: 1 <= i < |segs'| ==> segs'[i] == segs[i];
      SplitOfJoin(segs');
      SplitOfJoinConsHead(segs);
    }
  }

  /** A path starting with '/' splits into an empty segment, then the rest. */
  lemma SplitOfJoinEmptyHead(segs: seq<seq<Byte>>)
    requires |segs| > 1 && segs[0] == []
    requires Split(Join(segs[1..])) == segs[1..]
    ensures Split(Join(segs)) == segs
  {
    assert Join(segs) == [SLASH] + Join(segs[1..]);
    assert Join(segs)[1..] == Join(segs[1..]);
    assert [[]] + segs[1..] == segs;
  }

  /** A path starting with a byte other than '/' adds that byte to the first
      segment of the rest. */
  lemma SplitOfJoinConsHead(segs: seq<seq<Byte>>)
    requires |segs| >= 1 && segs[0] != [] && segs[0][0] != SLASH
    requires Split(Join([segs[0][1..]] + segs[1..])) == [segs[0][1..]] + segs[1..]
    ensures Split(Join(segs)) == segs
  {
    var x, s, rest := segs[0][0], segs[0][1..], segs[1..];
    assert segs[0] == [x] + s;
    assert segs == [[x] + s] + rest;
    JoinCons(x, s, rest);
    SplitCons(x, Join([s] + rest));
  }

  lemma JoinCons(x: Byte, s: seq<Byte>, rest: seq<seq<Byte>>)
    ensures Join([[x] + s] + rest) == [x] + Join([s] + rest)
  {
    if rest != [] {
      assert ([[x] + s] + rest)[1..] == rest;
      assert ([s] + rest)[1..] == rest;
    }
  }

  lemma SplitCons(x: Byte, q: seq<Byte>)
    requires x != SLASH
    ensures Split([x] + q) == [[x] + Split(q)[0]] + Split(q)[1..]
  {
    assert ([x] + q)[1..] == q;
  }

  // ---------------------------------------------------------------------------
  // Lengths and boundaries of a join

  /** Total length of the segments, summed from the first: the prefix sums of
      src/tar.ts:126-133. */
  function SumLengths(segs: seq<seq<Byte>>): nat
  {
    if segs == [] then 0 else SumLengths(segs[..|segs| - 1]) + |segs[|segs| - 1]|
  }

  lemma {:induction false} JoinAppend(segs: seq<seq<Byte>>, x: seq<Byte>)
    requires |segs| >= 1
    ensures Join(segs + [x]) == Join(segs) + [SLASH] + x
    decreases |segs|
  {
    if |segs| > 1 {
      assert (segs + [x])[1..] == segs[1..] + [x];
      JoinAppend(segs[1..], x);
    }
  }

  lemma {:induction false} JoinLength(segs: seq<seq<Byte>>)
    requires |segs| >= 1
    ensures |Join(segs)| == SumLengths(segs) + |segs| - 1
    decreases |segs|
  {
    if |segs| > 1 {
      var init := segs[..|segs| - 1];
      JoinLength(init);
      JoinAppend(init, segs[|segs| - 1]);
      assert init + [segs[|segs| - 1]] == segs;
    }
  }

  /** Joining the two sides of a split point and putting one '/' between them
      gives the whole join back. */
  lemma {:induction false} JoinAt(segs: seq<seq<Byte>>, i: nat)
    requires 1 <= i < |segs|
    ensures Join(segs[..i]) + [SLASH] + Join(segs[i..]) == Join(segs)
    decreases i
  {
    if i > 1 {
      JoinAt(segs[1..], i - 1);
      assert segs[1..][..i - 1] == segs[1..i];
      assert segs[1..][i - 1..] == segs[i..];
      assert segs[..i][1..] == segs[1..i];
    } else {
      assert segs[..1] == [segs[0]];
      assert segs[1..] == segs[i..];
    }
  }

  // ---------------------------------------------------------------------------
  // The specification of the splitter

  /** Splitting before segment i (1 <= i < |segs|) fits both fields. */
  predicate Fits(segs: seq<seq<Byte>>, i: nat)
  {
    1 <= i < |segs|
    && |Join(segs[..i])| <= MAX_PREFIX_LENGTH
    && |Join(segs[i..])| <= MAX_NAME_LENGTH
  }

  /** i is the first split point that fits. */
  predicate IsLeftmostFit(segs: seq<seq<Byte>>, i: nat)
  {
    Fits(segs, i) && forall j :: 1 <= j < i ==> !Fits(segs, j)
  }

  /** The first split point at or after `from` that fits, if any. */
  function FirstFit(segs: seq<seq<Byte>>, from: nat): (r: Option<nat>)
    requires from >= 1
    ensures r.Some? ==> from <= r.value && Fits(segs, r.value)
    ensures r.Some? ==> forall j :: from <= j < r.value ==> !Fits(segs, j)
    ensures r.None? ==> forall j :: from <= j < |segs| ==> !Fits(segs, j)
    decreases |segs| - from
  {
    if from >= |segs| then None
    else if Fits(segs, from) then Some(from)
    else FirstFit(segs, from + 1)
  }

  /** What `generate_prefix_and_name` returns: the whole path as `name` when it
      fits in 99 bytes; otherwise the leftmost fitting split; otherwise none. */
  function PrefixAndName(p: seq<Byte>): Option<(seq<Byte>, seq<Byte>)>
  {
    if |p| <= MAX_NAME_LENGTH then Some(([], p))
    else
      var segs := Split(p);
      match FirstFit(segs, 1)
      case None => None
      case Some(i) => Some((Join(segs[..i]), Join(segs[i..])))
  }

  /** The splitter's promise. A path of at most 99 bytes is kept whole. A longer
      one is split at the leftmost '/' boundary where prefix <= 154 and
      name <= 99 bytes, and prefix + '/' + name is the path again; there is no
      result exactly when no boundary fits, in particular whenever the path is
      longer than 154 + 1 + 99 bytes. */
  lemma PrefixAndNameCorrect(p: seq<Byte>)
    ensures var r := PrefixAndName(p);
      var segs := Split(p);
      && (|p| <= MAX_NAME_LENGTH ==> r == Some(([], p)))
      && (|p| > MAX_NAME_LENGTH ==> (r.None? <==> forall i :: 1 <= i < |segs| ==> !Fits(segs, i)))
      && (|p| > MAX_NAME_LENGTH && r.Some? ==>
            && r.value.0 + [SLASH] + r.value.1 == p
            && |r.value.0| <= MAX_PREFIX_LENGTH && |r.value.1| <= MAX_NAME_LENGTH
            && exists i: nat :: IsLeftmostFit(segs, i) && r.value == (Join(segs[..i]), Join(segs[i..])))
      && (|p| > MAX_PREFIX_LENGTH + 1 + MAX_NAME_LENGTH ==> r.None?)
  {
    var segs := Split(p);
    JoinOfSplit(p);
    if |p| > MAX_NAME_LENGTH {
      var f := FirstFit(segs, 1);
      if f.Some? {
        var i := f.value;
        JoinAt(segs, i);
        assert IsLeftmostFit(segs, i);
      }
    }
  }

  /** The widths alone: a result fits the 155-byte prefix and 100-byte name
      fields with a byte to spare, and none is given for a path of at most 99 bytes. */
  lemma PrefixAndNameBounds(p: seq<Byte>)
    ensures var r := PrefixAndName(p);
      && (r.Some? ==> |r.value.0| <= MAX_PREFIX_LENGTH && |r.value.1| <= MAX_NAME_LENGTH)
      && (r.None? ==> |p| > MAX_NAME_LENGTH)
  {
    PrefixAndNameCorrect(p);
  }

  /** A path without '/' that is longer than 99 bytes has no split: the loop of
      src/tar.ts:143 runs zero times. (The guard of src/tar.ts:135 tests
      `length === 1 && length > 99`, which never holds.) */
  lemma SingleLongSegmentUnsplittable(p: seq<Byte>)
    requires NoSlash(p) && |p| > MAX_NAME_LENGTH
    ensures PrefixAndName(p) == None
  {
    SplitOfJoin([p]);
    assert Split(p) == [p];
  }

  /** The reference of tests/tar.test.ts:31-41 for a path a/b/c of three
      non-empty segments. */
  lemma ThreeSegmentOracle(a: seq<Byte>, b: seq<Byte>, c: seq<Byte>)
    requires a != [] && b != [] && c != []
    requires NoSlash(a) && NoSlash(b) && NoSlash(c)
    ensures var path := a + [SLASH] + b + [SLASH] + c;
      PrefixAndName(path) ==
        if |path| <= MAX_NAME_LENGTH then Some(([], path))
        else if |a| <= MAX_PREFIX_LENGTH && |b| + 1 + |c| <= MAX_NAME_LENGTH
        then Some((a, b + [SLASH] + c))
        else if |a| + 1 + |b| <= MAX_PREFIX_LENGTH && |c| <= MAX_NAME_LENGTH
        then Some((a + [SLASH] + b, c))
        else None
  {
    var segs := [a, b, c];
    var path := a + [SLASH] + b + [SLASH] + c;
    assert segs[1..] == [b, c] && [b, c][1..] == [c];
    assert Join([c]) == c;
    assert Join([b, c]) == b + [SLASH] + c;
    assert Join(segs) == a + [SLASH] + (b + [SLASH] + c);
    assert Join(segs) == path;
    SplitOfJoin(segs);
    assert segs[..1] == [a] && segs[1..] == [b, c];
    assert segs[..2] == [a, b] && segs[2..] == [c] && [a, b][1..] == [b];
    assert Join([b, c]) == b + [SLASH] + c;
    assert Join([a, b]) == a + [SLASH] + b;
    assert Split(path) == segs;
    assert Fits(segs, 1) <==> |a| <= MAX_PREFIX_LENGTH && |b| + 1 + |c| <= MAX_NAME_LENGTH;
    assert Fits(segs, 2) <==> |a| + 1 + |b| <= MAX_PREFIX_LENGTH && |c| <= MAX_NAME_LENGTH;
    assert FirstFit(segs, 3) == None;
  }

  // ---------------------------------------------------------------------------
  // The imperative splitter

  /** The bytes `concat` has written after `index` of the arrays: the join of
      those arrays, and the '/' that follows unless they are all of them. */
  function Written(arrays: seq<seq<Byte>>, index: nat): seq<Byte>
    requires index <= |arrays|
  {
    Join(arrays[..index]) + if 0 < index < |arrays| then [SLASH] else []
  }

  lemma WrittenIsPrefix(arrays: seq<seq<Byte>>, index: nat)
    requires index <= |arrays|
    ensures |Written(arrays, index)| <= |Join(arrays)|
    ensures Join(arrays)[..|Written(arrays, index)|] == Written(arrays, index)
  {
    if 0 < index < |arrays| {
      JoinAt(arrays, index);
    } else if index == |arrays| {
      assert arrays[..index] == arrays;
    }
  }

  lemma WrittenStep(arrays: seq<seq<Byte>>, index: nat)
    requires index < |arrays|
    ensures Written(arrays, index + 1)
         == Written(arrays, index) + arrays[index] + if index + 1 < |arrays| then [SLASH] else []
  {
    if index == 0 {
      assert arrays[..1] == [arrays[0]];
    } else {
      assert arrays[..index + 1] == arrays[..index] + [arrays[index]];
      JoinAppend(arrays[..index], arrays[index]);
    }
  }

  /** `concat(arrays, total_length)`: a fresh buffer of total_length bytes filled
      with the arrays and a '/' between consecutive ones. Given the joined
      length, every byte is written and the result is the join. */
  method Concat(arrays: seq<seq<Byte>>, totalLength: nat) returns (r: seq<Byte>)
    requires totalLength == |Join(arrays)|
    ensures r == Join(arrays)
  {
    var result := new Byte[totalLength](_ => NUL);
    var length := 0;
    for index := 0 to |arrays|
      invariant length == |Written(arrays, index)| <= totalLength
      invariant result[..length] == Written(arrays, index)
    {
      WrittenStep(arrays, index);
      WrittenIsPrefix(arrays, index + 1);
      var a := arrays[index];
      forall k | 0 <= k < |a| {
        result[length + k] := a[k];
      }
      assert result[..length + |a|] == Written(arrays, index) + a;
      length := length + |a|;
      if index != |arrays| - 1 {
        result[length] := SLASH;
        length := length + 1;
      }
    }
    WrittenIsPrefix(arrays, |arrays|);
    assert arrays[..|arrays|] == arrays;
    r := result[..];
  }

  /** The two sides of split point i, measured by the prefix sums. */
  lemma SplitPointLengths(segs: seq<seq<Byte>>, i: nat)
    requires 1 <= i < |segs|
    ensures |Join(segs[..i])| == SumLengths(segs[..i]) + i - 1
    ensures |Join(segs[i..])| == |Join(segs)| - SumLengths(segs[..i]) - i
  {
    JoinLength(segs[..i]);
    JoinAt(segs, i);
  }

  /** `generate_prefix_and_name(path)`: prefix sums of the segment lengths, then
      the first split point whose two sides fit. */
  method GeneratePrefixAndName(path: seq<Byte>) returns (r: Option<(seq<Byte>, seq<Byte>)>)
    ensures r == PrefixAndName(path)
  {
    var splitName := Split(path);
    var n := |splitName|;
    var lengthSum := new nat[n](_ => 0);
    for index := 0 to n
      invariant forall j :: 0 <= j < index ==> lengthSum[j] == SumLengths(splitName[..j + 1])
    {
      if index == 0 {
        lengthSum[index] := |splitName[index]|;
      } else {
        assert splitName[..index + 1][..index] == splitName[..index];
        lengthSum[index] := lengthSum[index - 1] + |splitName[index]|;
      }
    }
    JoinOfSplit(path);
    JoinLength(splitName);
    assert splitName[..n] == splitName;
    var total := lengthSum[n - 1] + n - 1;
    assert total == |path|;

    if lengthSum.Length == 1 && lengthSum.Length > MAX_NAME_LENGTH {
      // the guard of src/tar.ts:135 can never hold
      assert false;
    }
    if total <= MAX_NAME_LENGTH {
      return Some(([], path));
    }
    for i := 1 to n
      invariant forall j :: 0 <= j < n ==> lengthSum[j] == SumLengths(splitName[..j + 1])
      invariant FirstFit(splitName, 1) == FirstFit(splitName, i)
    {
      assert splitName[..i] == splitName[..i - 1 + 1];
      SplitPointLengths(splitName, i);
      var prefixLength := lengthSum[i - 1] + (i - 1);
      var nameLength := total - lengthSum[i - 1] - i;
      assert prefixLength == |Join(splitName[..i])|;
      assert nameLength == |Join(splitName[i..])|;
      if prefixLength <= MAX_PREFIX_LENGTH && nameLength <= MAX_NAME_LENGTH {
        var prefix := Concat(splitName[..i], prefixLength);
        var name := Concat(splitName[i..], nameLength);
        return Some((prefix, name));
      }
    }
    return None;
  }
}
