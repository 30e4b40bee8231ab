/**
 The list formatter of utils.py (`get_comma_sep_string_from_list`): an
 English enumeration of strings, `x`, `x and y`, `x, y and z`, and the empty
 string for an empty list.
 */
module CommaSep {
  import opened Text

  const Comma: string := ", "
  const And: string := " and "

  /** `get_comma_sep_string_from_list` (utils.py:171-180). */
  function CommaSepString(items: seq<string>): (r: string)
    ensures |items| == 0 ==> r == ""
    ensures |items| == 1 ==> r == items[0]
    ensures |items| >= 2 ==> StartsWith(r, items[0]) && EndsWith(r, And + items[|items| - 1])
  {
    if |items| == 0 then ""
    else if |items| == 1 then items[0]
    else Join(items[..|items| - 1], Comma) + And + items[|items| - 1]
  }

  /**
   An independent reading of the enumeration, item by item from the front:
   the last two items are linked by ` and `, every earlier item is followed by `, `.
   */
  function Enumeration(items: seq<string>): string
    decreases |items|
  {
    if |items| == 0 then ""
    else if |items| == 1 then items[0]
    else if |items| == 2 then items[0] + And + items[1]
    else items[0] + Comma + Enumeration(items[1..])
  }

  /** The formatter produces exactly the enumeration read item by item. */
  lemma {:induction false} CommaSepIsEnumeration(items: seq<string>)
    ensures CommaSepString(items) == Enumeration(items)
    decreases |items|
  {
    var n := |items|;
    if n >= 3 {
      CommaSepIsEnumeration(items[1..]);
      var front := items[..n - 1];
      assert front[1..] == items[1..][..n - 2];
      assert items[1..][n - 2] == items[n - 1];
      assert Join(front, Comma) == items[0] + Comma + Join(front[1..], Comma);
      assert CommaSepString(items[1..]) == Join(front[1..], Comma) + And + items[n - 1];
      assert Enumeration(items) == items[0] + Comma + Enumeration(items[1..]);
    } else if n == 2 {
      assert items[..1] == [items[0]];
    }
  }

  /**
   The result is as long as all the items together plus the separators:
   one ` and ` and, before it, a `, ` for every further item.
   */
  lemma CommaSepLength(items: seq<string>)
    requires |items| >= 2
    ensures |CommaSepString(items)| == TotalLength(items) + |Comma| * (|items| - 2) + |And|
  {
    var n := |items|;
    var front := items[..n - 1];
    var last := items[n - 1];
    JoinLength(front, Comma);
    assert |Join(front, Comma)| == TotalLength(front) + |Comma| * (n - 2);
    TotalLengthAppend(front, [last]);
    assert front + [last] == items;
    assert TotalLength([last]) == |last|;
    assert TotalLength(items) == TotalLength(front) + |last|;
    assert CommaSepString(items) == Join(front, Comma) + And + last;
  }

  /** The four smallest cases. */
  lemma CommaSepExamples()
    ensures CommaSepString([]) == ""
    ensures CommaSepString(["x"]) == "x"
    ensures CommaSepString(["x", "y"]) == "x and y"
    ensures CommaSepString(["x", "y", "z"]) == "x, y and z"
  {
    CommaSepIsEnumeration(["x", "y"]);
    CommaSepIsEnumeration(["x", "y", "z"]);
    assert ["x", "y", "z"][1..] == ["y", "z"];
  }
}
