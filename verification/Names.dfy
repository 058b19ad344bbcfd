/** Host names and their case-insensitive order (src/hostname.rs).

    Names are ASCII, so that a character is a byte and a length is a byte length. */
module Names {

  datatype Ordering = Less | Equal | Greater {
    function Flip(): Ordering {
      match this
      case Less => Greater
      case Equal => Equal
      case Greater => Less
    }
  }

  function LowerChar(c: char): char {
    if 'A' <= c <= 'Z' then (c as int + 32) as char else c
  }

  function Lower(s: string): (r: string)
    ensures |r| == |s|
    ensures forall i :: 0 <= i < |s| ==> r[i] == LowerChar(s[i])
  {
    seq(|s|, i requires 0 <= i < |s| => LowerChar(s[i]))
  }

  /** The three-way comparison: the first position where the lower-cased names differ decides,
      and a proper prefix comes first. */
  function HostnameOrder(a: string, b: string): Ordering {
    if a == "" then if b == "" then Equal else Less
    else if b == "" then Greater
    else if LowerChar(a[0]) < LowerChar(b[0]) then Less
    else if LowerChar(a[0]) > LowerChar(b[0]) then Greater
    else HostnameOrder(a[1..], b[1..])
  }

  predicate SameName(a: string, b: string) {
    Lower(a) == Lower(b)
  }

  /** Names are the same when they differ at most between 'A' to 'Z' and 'a' to 'z'. */
  lemma SameNameIff(a: string, b: string)
    ensures SameName(a, b) <==>
            && |a| == |b|
            && forall i :: 0 <= i < |a| ==>
                 || a[i] == b[i]
                 || ('A' <= a[i] <= 'Z' && b[i] as int == a[i] as int + 32)
                 || ('A' <= b[i] <= 'Z' && a[i] as int == b[i] as int + 32)
  {
    if SameName(a, b) {
      assert |Lower(a)| == |a| && |Lower(b)| == |b|;
      forall i | 0 <= i < |a|
        ensures LowerChar(a[i]) == LowerChar(b[i])
      {
        assert Lower(a)[i] == Lower(b)[i];
      }
    }
  }

  lemma {:induction false} OrderEqualIsSameName(a: string, b: string)
    ensures HostnameOrder(a, b) == Equal <==> SameName(a, b)
  {
    if a != "" && b != "" {
      OrderEqualIsSameName(a[1..], b[1..]);
      assert Lower(a) == [LowerChar(a[0])] + Lower(a[1..]);
      assert Lower(b) == [LowerChar(b[0])] + Lower(b[1..]);
    }
  }

  /** The names agree up to letter case before `i`, and there the first one ends or has the smaller letter. */
  ghost predicate LessAt(a: string, b: string, i: nat) {
    i <= |a| && i < |b| && SameName(a[..i], b[..i]) && (i == |a| || LowerChar(a[i]) < LowerChar(b[i]))
  }

  lemma LessInTail(a: string, b: string, i: nat)
    requires a != "" && b != "" && LowerChar(a[0]) == LowerChar(b[0])
    ensures LessAt(a, b, i + 1) <==> LessAt(a[1..], b[1..], i)
  {
    if i < |a| && i + 1 < |b| {
      var x, y := a[1..][..i], b[1..][..i];
      assert a[..i + 1] == [a[0]] + x && b[..i + 1] == [b[0]] + y;
      assert Lower([a[0]] + x) == [LowerChar(a[0])] + Lower(x) && Lower([b[0]] + y) == [LowerChar(b[0])] + Lower(y);
      assert ([LowerChar(a[0])] + Lower(x))[1..] == Lower(x) && ([LowerChar(b[0])] + Lower(y))[1..] == Lower(y);
    }
  }

  lemma LessAtFront(a: string, b: string, i: nat)
    requires a != "" && b != "" && LowerChar(a[0]) != LowerChar(b[0])
    ensures LessAt(a, b, i) ==> i == 0
  {
    if 0 < i <= |a| && i < |b| {
      assert Lower(a[..i])[0] == LowerChar(a[0]) && Lower(b[..i])[0] == LowerChar(b[0]);
    }
  }

  /** A name is less when, letter case aside, it is smaller at the first difference, or it is a proper prefix. */
  lemma {:induction false} OrderIsLexicographic(a: string, b: string)
    ensures HostnameOrder(a, b) == Less <==> exists i: nat :: LessAt(a, b, i)
  {
    if a == "" || b == "" {
      assert a == "" && b != "" ==> LessAt(a, b, 0);
    } else if LowerChar(a[0]) == LowerChar(b[0]) {
      OrderIsLexicographic(a[1..], b[1..]);
      forall i: nat
        ensures LessAt(a, b, i + 1) <==> LessAt(a[1..], b[1..], i)
      {
        LessInTail(a, b, i);
      }
      if exists i: nat :: LessAt(a, b, i) {
        var i: nat :| LessAt(a, b, i);
        assert LessAt(a[1..], b[1..], i - 1);
      }
    } else {
      assert LowerChar(a[0]) < LowerChar(b[0]) ==> LessAt(a, b, 0);
      forall i: nat | LessAt(a, b, i)
        ensures i == 0
      {
        LessAtFront(a, b, i);
      }
    }
  }

  lemma {:induction false} OrderFlips(a: string, b: string)
    ensures HostnameOrder(b, a) == HostnameOrder(a, b).Flip()
  {
    if a != "" && b != "" {
      OrderFlips(a[1..], b[1..]);
    }
  }

  /** Less-or-equal composes, and strictly so if either step is strict. */
  lemma {:induction false} OrderTransitive(a: string, b: string, c: string)
    requires HostnameOrder(a, b) != Greater && HostnameOrder(b, c) != Greater
    ensures HostnameOrder(a, c) != Greater
    ensures HostnameOrder(a, b) == Less || HostnameOrder(b, c) == Less ==> HostnameOrder(a, c) == Less
    ensures HostnameOrder(a, b) == Equal && HostnameOrder(b, c) == Equal ==> HostnameOrder(a, c) == Equal
  {
    if a != "" && b != "" && c != "" {
      if LowerChar(a[0]) == LowerChar(b[0]) == LowerChar(c[0]) {
        OrderTransitive(a[1..], b[1..], c[1..]);
      }
    }
  }

  /** `domain_matches`: the query equals the server's domain or ends in "." followed by it. */
  predicate DomainMatches(query: string, domain: string) {
    || domain == ""
    || SameName(query, domain)
    || (|query| > |domain| &&
        var split := |query| - |domain| - 1;
        query[split] == '.' && SameName(query[split + 1..], domain))
  }

  /** A suffix starts at a label boundary of the name: at its start, at its end, or after a dot. */
  predicate LabelStart(name: string, start: nat)
    requires start <= |name|
  {
    start == 0 || start == |name| || name[start - 1] == '.'
  }

  /** A server domain matches exactly when it is, up to letter case, a suffix that starts at a label boundary. */
  lemma DomainMatchesIsAlignedSuffix(query: string, domain: string)
    ensures DomainMatches(query, domain) <==>
            |domain| <= |query| && LabelStart(query, |query| - |domain|)
              && SameName(query[|query| - |domain|..], domain)
  {
    var at := |query| - |domain|;
    if SameName(query, domain) {
      assert |Lower(query)| == |Lower(domain)|;
      assert query[at..] == query;
    }
    if domain == "" {
      assert query[at..] == "";
    }
    if at == 0 {
      assert query[at..] == query;
    }
  }

  /** The position of the first `c` at or after `i`, or the length. */
  function IndexOf(d: string, c: char, i: nat): (k: nat)
    requires i <= |d|
    ensures i <= k <= |d|
    ensures forall j :: i <= j < k ==> d[j] != c
    ensures k < |d| ==> d[k] == c
    decreases |d| - i
  {
    if i < |d| && d[i] != c then IndexOf(d, c, i + 1) else i
  }
}
