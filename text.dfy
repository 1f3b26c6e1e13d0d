/** The JavaScript string operations the board relies on: `trim`, `split(',')`, `join(',')` and `filter`. */
module JsStrings {

  /**
   * The characters `String.prototype.trim` removes: the WhiteSpace and
   * LineTerminator code points of ECMAScript (tab, line tabulation, form
   * feed, space, no-break space, the byte order mark, the space separators
   * of Unicode category Zs, line feed, carriage return, and the line and
   * paragraph separators).
   */
  predicate IsJsWhitespace(c: char) {
    || ('\U{9}' <= c <= '\U{D}')
    || c == '\U{20}' || c == '\U{A0}' || c == '\U{1680}'
    || ('\U{2000}' <= c <= '\U{200A}')
    || c == '\U{2028}' || c == '\U{2029}' || c == '\U{202F}' || c == '\U{205F}'
    || c == '\U{3000}' || c == '\U{FEFF}'
  }

  /** Every character of `s` is whitespace. */
  predicate AllWhitespace(s: string) {
    forall i :: 0 <= i < |s| ==> IsJsWhitespace(s[i])
  }

  /** `s` without its leading whitespace. */
  function TrimStart(s: string): (r: string)
    ensures |r| <= |s| && r == s[|s| - |r|..]
    ensures r == [] || !IsJsWhitespace(r[0])
    ensures AllWhitespace(s[..|s| - |r|])
    decreases |s|
  {
    if s == [] || !IsJsWhitespace(s[0]) then s
    else
      var r := TrimStart(s[1..]);
      assert s[..|s| - |r|] == [s[0]] + s[1..][..|s| - 1 - |r|];
      r
  }

  /** `s` without its trailing whitespace. */
  function TrimEnd(s: string): (r: string)
    ensures |r| <= |s| && r == s[..|r|]
    ensures r == [] || !IsJsWhitespace(r[|r| - 1])
    ensures AllWhitespace(s[|r|..])
    decreases |s|
  {
    if s == [] || !IsJsWhitespace(s[|s| - 1]) then s
    else
      var init := s[..|s| - 1];
      var r := TrimEnd(init);
      assert s[|r|..] == init[|r|..] + [s[|s| - 1]];
      r
  }

  /** `s.trim()`. */
  function Trim(s: string): (r: string)
    ensures r == [] || (!IsJsWhitespace(r[0]) && !IsJsWhitespace(r[|r| - 1]))
  {
    TrimEnd(TrimStart(s))
  }

  /** Trimming keeps the part of `s` between its leading and its trailing whitespace. */
  lemma TrimSlice(s: string)
    ensures var r, d := Trim(s), |s| - |TrimStart(s)|;
      && d + |r| <= |s| && r == s[d..d + |r|]
      && AllWhitespace(s[..d]) && AllWhitespace(s[d + |r|..])
  {
    var t := TrimStart(s);
    var r := TrimEnd(t);
    var d := |s| - |t|;
    assert t == s[d..] && AllWhitespace(s[..d]);
    assert r == t[..|r|] && AllWhitespace(t[|r|..]);
    assert s[d..d + |r|] == t[..|r|];
    assert s[d + |r|..] == t[|r|..];
  }

  /** A string that `trim` empties, the falsy case of `!s.trim()`. */
  predicate IsBlank(s: string) {
    Trim(s) == []
  }

  /** Trimming gives the empty string exactly when every character is whitespace. */
  lemma TrimEmptyIff(s: string)
    ensures IsBlank(s) <==> AllWhitespace(s)
  {
    var t := TrimStart(s);
    if Trim(s) == [] {
      assert AllWhitespace(t[0..]);
      assert t == [];
      assert s[..|s| - |t|] == s;
    }
    if AllWhitespace(s) && t != [] {
      assert false;
    }
  }

  /** `items.join(',')`: the items with a comma between each two; the empty list joins to "". */
  function Join(items: seq<string>): (r: string)
    ensures items == [] ==> r == []
    ensures |items| == 1 ==> r == items[0]
  {
    if items == [] then []
    else if |items| == 1 then items[0]
    else items[0] + [','] + Join(items[1..])
  }

  /** `s.split(',')`: the pieces between commas, empty pieces included; never an empty list. */
  function Split(s: string): (r: seq<string>)
    ensures |r| >= 1
    ensures forall p :: p in r ==> ',' !in p
    decreases |s|
  {
    if s == [] then [[]]
    else
      var rest := Split(s[1..]);
      if s[0] == ',' then [[]] + rest
      else [[s[0]] + rest[0]] + rest[1..]
  }

  /** `s.filter(t => t !== x)`: the items other than `x`, in order. */
  function Without(s: seq<string>, x: string): (r: seq<string>)
    ensures x !in r
    ensures multiset(r) == multiset(s)[x := 0]
    ensures x !in s ==> r == s
  {
    if s == [] then []
    else
      var init, last := s[..|s| - 1], s[|s| - 1];
      assert s == init + [last];
      if last == x then Without(init, x) else Without(init, x) + [last]
  }

  /** Filtering distributes over concatenation, so the kept items stay in order. */
  lemma {:induction false} WithoutConcat(a: seq<string>, c: seq<string>, x: string)
    ensures Without(a + c, x) == Without(a, x) + Without(c, x)
    decreases |c|
  {
    if c == [] {
      assert a + c == a;
    } else {
      var n := |c| - 1;
      assert (a + c)[..|a + c| - 1] == a + c[..n];
      assert (a + c)[|a + c| - 1] == c[n];
      WithoutConcat(a, c[..n], x);
    }
  }

  /** `filter(Boolean)` on strings: the non-empty ones, in order. */
  function DropEmpty(items: seq<string>): (r: seq<string>)
    ensures forall i :: 0 <= i < |r| ==> r[i] != []
    ensures forall x :: x in r <==> x in items && x != []
  {
    if items == [] then []
    else
      var rest := DropEmpty(items[..|items| - 1]);
      var last := items[|items| - 1];
      assert items == items[..|items| - 1] + [last];
      if last == [] then rest else rest + [last]
  }

  /** `filter(Boolean)` is the filter that drops "", so it shares that filter's facts. */
  lemma {:induction false} DropEmptyIsWithout(items: seq<string>)
    ensures DropEmpty(items) == Without(items, [])
  {
    if items != [] {
      DropEmptyIsWithout(items[..|items| - 1]);
    }
  }

  /** Dropping empty strings keeps every other string as often as it occurs. */
  lemma DropEmptyCounts(items: seq<string>)
    ensures multiset(DropEmpty(items)) == multiset(items)[[] := 0]
  {
    DropEmptyIsWithout(items);
  }

  /** Dropping empty strings distributes over concatenation, so the kept strings stay in order. */
  lemma DropEmptyConcat(a: seq<string>, c: seq<string>)
    ensures DropEmpty(a + c) == DropEmpty(a) + DropEmpty(c)
  {
    DropEmptyIsWithout(a);
    DropEmptyIsWithout(c);
    DropEmptyIsWithout(a + c);
    WithoutConcat(a, c, []);
  }

  /** Dropping empty strings from items that have none changes nothing. */
  lemma DropEmptyNone(items: seq<string>)
    requires forall i :: 0 <= i < |items| ==> items[i] != []
    ensures DropEmpty(items) == items
  {
    DropEmptyIsWithout(items);
    assert [] !in items;
  }

  /** A comma-free string is one piece. */
  lemma {:induction false} SplitNoComma(s: string)
    requires ',' !in s
    ensures Split(s) == [s]
    decreases |s|
  {
    if s != [] {
      SplitNoComma(s[1..]);
      assert [s[0]] + s[1..] == s;
    }
  }

  /** A comma-free head followed by a comma splits off as the first piece. */
  lemma {:induction false} SplitAfterPiece(a: string, t: string)
    requires ',' !in a
    ensures Split(a + [','] + t) == [a] + Split(t)
    decreases |a|
  {
    if a == [] {
      assert a + [','] + t == [','] + t;
      assert ([','] + t)[1..] == t;
    } else {
      var s := a + [','] + t;
      assert s[1..] == a[1..] + [','] + t;
      SplitAfterPiece(a[1..], t);
      assert [a[0]] + a[1..] == a;
    }
  }

  /** Splitting at one comma splits each side on its own. */
  lemma {:induction false} SplitConcat(a: string, t: string)
    ensures Split(a + [','] + t) == Split(a) + Split(t)
    decreases |a|
  {
    var s := a + [','] + t;
    if a == [] {
      assert s == [','] + t;
      assert s[1..] == t;
    } else {
      assert s[1..] == a[1..] + [','] + t;
      SplitConcat(a[1..], t);
    }
  }

  /** Splitting undoes joining comma-free items, as long as there is at least one. */
  lemma {:induction false} SplitJoin(items: seq<string>)
    requires |items| >= 1
    requires forall i :: 0 <= i < |items| ==> ',' !in items[i]
    ensures Split(Join(items)) == items
  {
    if |items| == 1 {
      SplitNoComma(items[0]);
    } else {
      SplitJoin(items[1..]);
      SplitAfterPiece(items[0], Join(items[1..]));
      assert [items[0]] + items[1..] == items;
    }
  }

  /** Joining undoes splitting. */
  lemma {:induction false} JoinSplit(s: string)
    ensures Join(Split(s)) == s
    decreases |s|
  {
    if s != [] {
      var rest := Split(s[1..]);
      JoinSplit(s[1..]);
      if s[0] == ',' {
        assert ([[]] + rest)[1..] == rest;
        assert [','] + s[1..] == s;
      } else {
        var r := [[s[0]] + rest[0]] + rest[1..];
        assert r[1..] == rest[1..];
        if |rest| == 1 {
          assert [s[0]] + s[1..] == s;
        } else {
          assert Join(rest) == rest[0] + [','] + Join(rest[1..]);
          assert [s[0]] + s[1..] == s;
        }
      }
    }
  }
}
