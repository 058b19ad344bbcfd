/** Strings as fields between separators. */
module Fields {
  import opened Names

  function Split(s: string, sep: char): (fields: seq<string>)
    ensures fields != []
  {
    if s == "" then [""]
    else
      var rest := Split(s[1..], sep);
      if s[0] == sep then [""] + rest else [[s[0]] + rest[0]] + rest[1..]
  }

  function Join(fields: seq<string>, sep: char): string
    requires fields != []
  {
    if |fields| == 1 then fields[0] else fields[0] + [sep] + Join(fields[1..], sep)
  }

  predicate Free(fields: seq<string>, c: char) { forall i :: 0 <= i < |fields| ==> c !in fields[i] }

  lemma SplitAt(x: string, sep: char, y: string)
    requires sep !in x
    ensures var s := x + [sep] + y; IndexOf(s, sep, 0) == |x| && s[..|x|] == x && s[|x| + 1..] == y
  {
    var s := x + [sep] + y;
    assert s[|x|] == sep && forall j :: 0 <= j < |x| ==> s[j] == x[j];
  }

  lemma {:induction false} SplitFree(x: string, sep: char)
    requires sep !in x
    ensures Split(x, sep) == [x]
  {
    if x == "" {
    } else {
      SplitFree(x[1..], sep);
      assert x == [x[0]] + x[1..];
    }
  }

  lemma {:induction false} SplitCons(x: string, sep: char, y: string)
    requires sep !in x
    ensures Split(x + [sep] + y, sep) == [x] + Split(y, sep)
  {
    var s := x + [sep] + y;
    if x == "" {
      assert s[0] == sep && s[1..] == y;
    } else {
      SplitCons(x[1..], sep, y);
      assert s[0] == x[0] && s[1..] == x[1..] + [sep] + y && x == [x[0]] + x[1..];
    }
  }

  lemma {:induction false} SplitJoin(fields: seq<string>, sep: char)
    requires fields != [] && Free(fields, sep)
    ensures Split(Join(fields, sep), sep) == fields
  {
    if |fields| == 1 {
      SplitFree(fields[0], sep);
      assert fields == [fields[0]];
    } else {
      var rest := fields[1..];
      SplitJoin(rest, sep);
      SplitCons(fields[0], sep, Join(rest, sep));
      assert fields == [fields[0]] + rest;
    }
  }

  lemma JoinFirst(c: char, fields: seq<string>, sep: char)
    requires fields != []
    ensures Join([[c] + fields[0]] + fields[1..], sep) == [c] + Join(fields, sep)
  {
    var more := [[c] + fields[0]] + fields[1..];
    assert more[0] == [c] + fields[0] && more[1..] == fields[1..];
    if |fields| > 1 {
      assert [c] + fields[0] + [sep] + Join(fields[1..], sep) == [c] + (fields[0] + [sep] + Join(fields[1..], sep));
    }
  }

  /** Splitting leaves no separator in a field, and joining the fields gives back the string. */
  lemma {:induction false} JoinSplit(s: string, sep: char)
    ensures Free(Split(s, sep), sep) && Join(Split(s, sep), sep) == s
  {
    if s == "" {
      assert Split(s, sep) == [""];
    } else {
      var rest := Split(s[1..], sep);
      JoinSplit(s[1..], sep);
      if s[0] == sep {
        assert ([""] + rest)[1..] == rest;
        assert s == [] + [sep] + s[1..];
      } else {
        JoinFirst(s[0], rest, sep);
        assert s == [s[0]] + s[1..];
      }
    }
  }

  /** The fields that are not empty. */
  function NonEmpty(fields: seq<string>): seq<string> {
    if fields == [] then [] else (if fields[0] == "" then [] else [fields[0]]) + NonEmpty(fields[1..])
  }

  lemma {:induction false} NonEmptyKeeps(fields: seq<string>)
    requires "" !in fields
    ensures NonEmpty(fields) == fields
  {
    if fields == [] {
      assert NonEmpty(fields) == [];
    } else {
      assert fields == [fields[0]] + fields[1..];
      NonEmptyKeeps(fields[1..]);
    }
  }
}
