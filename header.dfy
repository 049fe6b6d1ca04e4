/** The CSV header of memorystore.py's `main`: the twelve leading columns,
    then every other key of the rows once, in the order it is first seen. */
module Header {
  import opened Dicts
  import opened Tables

  /** `base_order` */
  const BaseOrder: seq<string> :=
    ["Source", "Project ID", "InstanceType", "ClusterId", "InstanceId", "NodeId",
     "NodeRole", "NodeType", "Region", "Zone", "BytesUsedForCache", "MaxMemory"]

  /** Every key of every row, row by row, each row in its own key order. */
  function AllKeys(rows: seq<Row>): seq<string>
    decreases |rows|
  {
    if rows == [] then [] else AllKeys(rows[..|rows| - 1]) + rows[|rows| - 1].keys
  }

  /** The elements of `s` that are not in `exclude`, each once, in the order
      of their first occurrence: what the `category_keys.append` loop leaves. */
  function FirstSeen(s: seq<string>, exclude: seq<string>): seq<string>
    decreases |s|
  {
    if s == [] then []
    else
      var acc := FirstSeen(s[..|s| - 1], exclude);
      var k := s[|s| - 1];
      if k !in exclude && k !in acc then acc + [k] else acc
  }

  /** The position of the first occurrence of `x` in `s`. */
  function FirstIndex(s: seq<string>, x: string): nat
    requires x in s
    decreases |s|
  {
    var n := |s| - 1;
    if x in s[..n] then FirstIndex(s[..n], x) else n
  }

  /** The header `main` writes for `rows`. */
  function HeaderOf(rows: seq<Row>): seq<string> {
    BaseOrder + FirstSeen(AllKeys(rows), BaseOrder)
  }

  /** The header-building loop of `main`. */
  method BuildHeader(rows: seq<Row>) returns (header: seq<string>)
    ensures header == HeaderOf(rows)
  {
    var categoryKeys: seq<string> := [];
    for i := 0 to |rows|
      invariant categoryKeys == FirstSeen(AllKeys(rows[..i]), BaseOrder)
    {
      ghost var before := AllKeys(rows[..i]);
      var keys := rows[i].keys;
      assert before + keys[..0] == before;
      for j := 0 to |keys|
        invariant categoryKeys == FirstSeen(before + keys[..j], BaseOrder)
      {
        var k := keys[j];
        assert (before + keys[..j + 1])[..|before + keys[..j + 1]| - 1] == before + keys[..j];
        if k !in BaseOrder && k !in categoryKeys {
          categoryKeys := categoryKeys + [k];
        }
      }
      assert rows[..i + 1][..i] == rows[..i];
      assert keys[..|keys|] == keys;
    }
    assert rows[..|rows|] == rows;
    header := BaseOrder + categoryKeys;
  }

  // ---------------------------------------------------------------- what the header promises

  lemma BaseOrderDistinct()
    ensures Distinct(BaseOrder)
  {
    forall i, j | 0 <= i < j < |BaseOrder| ensures BaseOrder[i] != BaseOrder[j] {
      assert |BaseOrder[i]| != |BaseOrder[j]| || BaseOrder[i][0] != BaseOrder[j][0] || BaseOrder[i][4] != BaseOrder[j][4];
    }
  }

  /** The collected keys are exactly the keys of `s` outside `exclude`, and
      none is collected twice. */
  lemma {:induction false} FirstSeenMembers(s: seq<string>, exclude: seq<string>)
    ensures forall x :: x in FirstSeen(s, exclude) <==> x in s && x !in exclude
    ensures Distinct(FirstSeen(s, exclude))
    decreases |s|
  {
    if s != [] {
      var n := |s| - 1;
      FirstSeenMembers(s[..n], exclude);
      assert s == s[..n] + [s[n]];
    }
  }

  /** `FirstIndex` finds the first occurrence. */
  lemma {:induction false} FirstIndexIsFirst(s: seq<string>, x: string)
    requires x in s
    ensures FirstIndex(s, x) < |s| && s[FirstIndex(s, x)] == x
    ensures forall k :: 0 <= k < FirstIndex(s, x) ==> s[k] != x
    decreases |s|
  {
    var n := |s| - 1;
    if x in s[..n] {
      FirstIndexIsFirst(s[..n], x);
    } else {
      forall k | 0 <= k < n ensures s[k] != x {
        assert s[k] == s[..n][k];
      }
    }
  }

  /** The collected keys appear in the order of their first occurrence in `s`. */
  lemma {:induction false} FirstSeenOrdered(s: seq<string>, exclude: seq<string>)
    ensures forall x :: x in FirstSeen(s, exclude) ==> x in s
    ensures forall i, j :: 0 <= i < j < |FirstSeen(s, exclude)| ==>
              FirstIndex(s, FirstSeen(s, exclude)[i]) < FirstIndex(s, FirstSeen(s, exclude)[j])
    decreases |s|
  {
    FirstSeenMembers(s, exclude);
    if s != [] {
      var n := |s| - 1;
      var pre := s[..n];
      var acc := FirstSeen(pre, exclude);
      FirstSeenOrdered(pre, exclude);
      FirstSeenMembers(pre, exclude);
      var r := FirstSeen(s, exclude);
      forall y | y in acc ensures FirstIndex(s, y) == FirstIndex(pre, y) < n {
        FirstIndexIsFirst(pre, y);
      }
      forall i, j | 0 <= i < j < |r| ensures FirstIndex(s, r[i]) < FirstIndex(s, r[j]) {
        assert r[i] == acc[i];
        if j < |acc| {
          assert r[j] == acc[j];
        } else {
          assert r[j] == s[n] && s[n] !in pre;
        }
      }
    }
  }

  /** A key is in some row exactly when it is in the concatenated key list. */
  lemma {:induction false} AllKeysMembers(rows: seq<Row>)
    ensures forall x :: x in AllKeys(rows) <==> exists i :: 0 <= i < |rows| && x in rows[i].keys
    decreases |rows|
  {
    if rows != [] {
      var n := |rows| - 1;
      AllKeysMembers(rows[..n]);
      forall x ensures x in AllKeys(rows) <==> exists i :: 0 <= i < |rows| && x in rows[i].keys {
        if x in AllKeys(rows[..n]) {
          var i :| 0 <= i < n && x in rows[..n][i].keys;
          assert x in rows[i].keys;
        }
        if exists i :: 0 <= i < |rows| && x in rows[i].keys {
          var i :| 0 <= i < |rows| && x in rows[i].keys;
          if i < n { assert x in rows[..n][i].keys; }
        }
      }
    }
  }

  /** The header starts with the twelve base columns in their order, lists
      no column twice, and holds exactly the base columns and the keys of
      the rows; with no rows it is the base columns alone. */
  lemma HeaderShape(rows: seq<Row>)
    ensures |HeaderOf(rows)| >= 12 && HeaderOf(rows)[..12] == BaseOrder
    ensures Distinct(HeaderOf(rows))
    ensures forall x :: x in HeaderOf(rows) <==> x in BaseOrder || exists i :: 0 <= i < |rows| && x in rows[i].keys
    ensures rows == [] ==> HeaderOf(rows) == BaseOrder
  {
    var cats := FirstSeen(AllKeys(rows), BaseOrder);
    BaseOrderDistinct();
    FirstSeenMembers(AllKeys(rows), BaseOrder);
    AllKeysMembers(rows);
    var h := HeaderOf(rows);
    forall i, j | 0 <= i < j < |h| ensures h[i] != h[j] {
      if j < 12 {
        assert h[i] == BaseOrder[i] && h[j] == BaseOrder[j];
      } else if i < 12 {
        assert h[i] in BaseOrder && h[j] == cats[j - 12];
      } else {
        assert h[i] == cats[i - 12] && h[j] == cats[j - 12];
      }
    }
  }

  /** After the base columns, the keys follow the order in which the rows
      first show them. */
  lemma HeaderCategoryOrder(rows: seq<Row>)
    ensures forall i, j :: 12 <= i < j < |HeaderOf(rows)| ==>
              HeaderOf(rows)[i] in AllKeys(rows) && HeaderOf(rows)[j] in AllKeys(rows) &&
              FirstIndex(AllKeys(rows), HeaderOf(rows)[i]) < FirstIndex(AllKeys(rows), HeaderOf(rows)[j])
  {
    var cats := FirstSeen(AllKeys(rows), BaseOrder);
    FirstSeenOrdered(AllKeys(rows), BaseOrder);
    assert HeaderOf(rows) == BaseOrder + cats && |BaseOrder| == 12;
    forall i, j | 12 <= i < j < |HeaderOf(rows)|
      ensures HeaderOf(rows)[i] in AllKeys(rows) && HeaderOf(rows)[j] in AllKeys(rows)
      ensures FirstIndex(AllKeys(rows), HeaderOf(rows)[i]) < FirstIndex(AllKeys(rows), HeaderOf(rows)[j])
    {
      assert HeaderOf(rows)[i] == cats[i - 12] && HeaderOf(rows)[j] == cats[j - 12];
    }
  }
}
