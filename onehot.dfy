/** One-hot expansion of a label volume: the distinct labels in ascending
    order (`np.unique`) and one boolean mask per label. */
module OneHot {
  import opened Volumes

  predicate StrictlyAscending(s: seq<int>) {
    forall i, j :: 0 <= i < j < |s| ==> s[i] < s[j]
  }

  /** The distinct values of `s`. */
  function Values(s: seq<int>): set<int> {
    set x | x in s
  }

  /** An ascending sequence stays ascending under a new head below it. */
  lemma AscendingCons(h: int, t: seq<int>)
    requires StrictlyAscending(t)
    requires forall j :: 0 <= j < |t| ==> h < t[j]
    ensures StrictlyAscending([h] + t)
  {
    var r := [h] + t;
    forall i, j | 0 <= i < j < |r| ensures r[i] < r[j] {
      assert r[j] == t[j - 1];
      if i > 0 { assert r[i] == t[i - 1]; }
    }
  }

  lemma AscendingTail(s: seq<int>)
    requires s != [] && StrictlyAscending(s)
    ensures StrictlyAscending(s[1..])
    ensures forall y :: y in s[1..] ==> s[0] < y
  {
    forall i, j | 0 <= i < j < |s| - 1 ensures s[1..][i] < s[1..][j] {
      assert s[1..][i] == s[i + 1] && s[1..][j] == s[j + 1];
    }
  }

  /** Adds `x` to the ascending `s` at its place, unless already there. */
  function InsertLabel(x: int, s: seq<int>): (r: seq<int>)
    requires StrictlyAscending(s)
    ensures StrictlyAscending(r)
    ensures forall y :: y in r <==> y in s || y == x
  {
    if s == [] then [x]
    else if x < s[0] then
      AscendingCons(x, s);
      [x] + s
    else if x == s[0] then s
    else
      AscendingTail(s);
      var tail := InsertLabel(x, s[1..]);
      assert forall j :: 0 <= j < |tail| ==> s[0] < tail[j] by {
        forall j | 0 <= j < |tail| ensures s[0] < tail[j] {
          assert tail[j] in tail;
        }
      }
      AscendingCons(s[0], tail);
      assert s == [s[0]] + s[1..];
      [s[0]] + tail
  }

  /** `np.unique(matrix)`: the distinct values in ascending order. */
  function Unique(data: seq<int>): (labels: seq<int>)
    ensures StrictlyAscending(labels)
    ensures forall y :: y in labels <==> y in data
  {
    if data == [] then []
    else
      var n := |data| - 1;
      var init := Unique(data[..n]);
      assert forall y :: y in data <==> y in data[..n] || y == data[n] by {
        assert data == data[..n] + [data[n]];
      }
      InsertLabel(data[n], init)
  }

  lemma HeadIsLeast(s: seq<int>, y: int)
    requires s != [] && StrictlyAscending(s) && y in s
    ensures s[0] <= y
  {
  }

  lemma InTail(s: seq<int>, y: int)
    requires s != [] && y in s && y != s[0]
    ensures y in s[1..]
  {
    var k :| 0 <= k < |s| && s[k] == y;
    assert s[1..][k - 1] == y;
  }

  lemma ValuesCons(s: seq<int>)
    requires s != []
    ensures Values(s) == {s[0]} + Values(s[1..])
  {
    forall y | y in Values(s) ensures y in {s[0]} + Values(s[1..]) {
      if y != s[0] { InTail(s, y); }
    }
  }

  /** Two ascending sequences with the same elements are equal: the labels
      are THE ascending enumeration of the values, whatever order the
      voxels come in. */
  lemma {:induction false} AscendingUnique(a: seq<int>, b: seq<int>)
    requires StrictlyAscending(a) && StrictlyAscending(b)
    requires forall y :: y in a <==> y in b
    ensures a == b
  {
    if a != [] && b != [] {
      HasElement(a);
      HasElement(b);
      HeadIsLeast(a, b[0]);
      HeadIsLeast(b, a[0]);
      AscendingTail(a);
      AscendingTail(b);
      forall y ensures y in a[1..] <==> y in b[1..] {
        if y in a[1..] {
          InTail(b, y);
        }
        if y in b[1..] {
          InTail(a, y);
        }
      }
      AscendingUnique(a[1..], b[1..]);
      assert a == [a[0]] + a[1..] && b == [b[0]] + b[1..];
    } else if a != [] {
      HasElement(a);
    } else if b != [] {
      HasElement(b);
    }
  }

  lemma HasElement(s: seq<int>)
    requires s != []
    ensures s[0] in s
  {
  }

  /** As many labels as distinct values. */
  lemma {:induction false} AscendingCount(s: seq<int>)
    requires StrictlyAscending(s)
    ensures |Values(s)| == |s|
  {
    if s != [] {
      AscendingTail(s);
      AscendingCount(s[1..]);
      ValuesCons(s);
      assert s[0] !in Values(s[1..]);
    }
  }

  /** The number of masks is the number of distinct values of the volume. */
  lemma UniqueCount(data: seq<int>)
    ensures |Unique(data)| == |Values(data)|
  {
    AscendingCount(Unique(data));
    assert Values(Unique(data)) == Values(data);
  }

  /** Every value of the volume has exactly one label position. */
  lemma OneLabelPerValue(data: seq<int>, y: int)
    requires y in data
    ensures exists k :: 0 <= k < |Unique(data)| && Unique(data)[k] == y
    ensures forall k, l ::
      (0 <= k < |Unique(data)| && 0 <= l < |Unique(data)| && Unique(data)[k] == y && Unique(data)[l] == y) ==> k == l
  {
    var labels := Unique(data);
    assert y in labels;
  }

  /** int_to_onehot: `labels = np.unique(matrix)`, then a zero-filled
      stack of `len(labels)` masks of the volume's shape, mask `i` set to
      `matrix == labels[i]`. */
  method IntToOneHot(vol: Volume) returns (labels: seq<int>, onehot: array4<bool>)
    requires Valid(vol)
    ensures labels == Unique(vol.data)
    ensures fresh(onehot)
    ensures onehot.Length0 == |labels|
    ensures onehot.Length1 == vol.nx && onehot.Length2 == vol.ny && onehot.Length3 == vol.nz
    ensures forall k, x, y, z :: 0 <= k < |labels| && 0 <= x < vol.nx && 0 <= y < vol.ny && 0 <= z < vol.nz ==>
      onehot[k, x, y, z] == (At(vol, x, y, z) == labels[k])
  {
    labels := Unique(vol.data);
    var vecLen := |labels|;
    onehot := new bool[vecLen, vol.nx, vol.ny, vol.nz]((k, x, y, z) => false);
    for i := 0 to vecLen
      invariant forall k, x, y, z :: 0 <= k < i && 0 <= x < vol.nx && 0 <= y < vol.ny && 0 <= z < vol.nz ==>
        onehot[k, x, y, z] == (At(vol, x, y, z) == labels[k])
    {
      forall x, y, z | 0 <= x < vol.nx && 0 <= y < vol.ny && 0 <= z < vol.nz {
        onehot[i, x, y, z] := At(vol, x, y, z) == labels[i];
      }
    }
  }

  /** Every voxel is set in exactly one mask: the masks partition the
      volume. */
  lemma MasksPartition(vol: Volume, x: nat, y: nat, z: nat)
    requires Valid(vol) && x < vol.nx && y < vol.ny && z < vol.nz
    ensures var labels := Unique(vol.data);
      && (exists k :: 0 <= k < |labels| && At(vol, x, y, z) == labels[k])
      && forall k, l ::
           (0 <= k < |labels| && 0 <= l < |labels| && At(vol, x, y, z) == labels[k] && At(vol, x, y, z) == labels[l]) ==> k == l
  {
    IndexInRange(vol, x, y, z);
    OneLabelPerValue(vol.data, At(vol, x, y, z));
  }
}
