/** The .NET string operations the handler relies on, over `seq<char>`. */
module Text {

  /** No character of `s` is one of `cs`. */
  predicate NoneOf(s: string, cs: seq<char>) {
    forall c :: c in s ==> c !in cs
  }

  /** String.Split(char[]): the pieces between separator characters, empty pieces kept. */
  function Split(s: string, seps: seq<char>): (r: seq<string>)
    ensures |r| >= 1
    ensures forall k :: 0 <= k < |r| ==> NoneOf(r[k], seps)
    decreases |s|
  {
    if s == [] then [""]
    else if s[0] in seps then [""] + Split(s[1..], seps)
    else
      var rest := Split(s[1..], seps);
      [[s[0]] + rest[0]] + rest[1..]
  }

  /** String.Join: the parts with one delimiter between neighbours. */
  function Join(parts: seq<string>, d: char): string
    decreases |parts|
  {
    if parts == [] then ""
    else if |parts| == 1 then parts[0]
    else parts[0] + [d] + Join(parts[1..], d)
  }

  /** String.Replace("\"", ""): every double quote removed. */
  function RemoveQuotes(s: string): (r: string)
    ensures '"' !in r
    ensures |r| <= |s|
  {
    if s == [] then ""
    else (if s[0] == '"' then "" else [s[0]]) + RemoveQuotes(s[1..])
  }

  /** String.LastIndexOf for a one-character needle: -1 when absent. */
  function LastIndexOf(s: string, c: char): (r: int)
    ensures r == -1 <==> c !in s
    ensures r != -1 ==> 0 <= r < |s| && s[r] == c && c !in s[r + 1..]
  {
    if s == [] then -1
    else if s[|s| - 1] == c then |s| - 1
    else
      assert s[..|s| - 1][|s| - 1..] == [];
      LastIndexOf(s[..|s| - 1], c)
  }

  lemma {:induction false} SplitNoSeparator(a: string, seps: seq<char>)
    requires NoneOf(a, seps)
    ensures Split(a, seps) == [a]
    decreases |a|
  {
    if a != [] {
      assert a[0] in a;
      SplitNoSeparator(a[1..], seps);
      assert [a[0]] + a[1..] == a;
    }
  }

  /** Splitting at a separator character splits the two sides independently. */
  lemma {:induction false} SplitAtSeparator(a: string, c: char, b: string, seps: seq<char>)
    requires c in seps
    ensures Split(a + [c] + b, seps) == Split(a, seps) + Split(b, seps)
    decreases |a|
  {
    var s := a + [c] + b;
    if a == [] {
      assert s[1..] == b;
    } else {
      assert s[1..] == a[1..] + [c] + b;
      SplitAtSeparator(a[1..], c, b, seps);
    }
  }

  lemma {:induction false} JoinSnoc(parts: seq<string>, x: string, d: char)
    requires parts != []
    ensures Join(parts + [x], d) == Join(parts, d) + [d] + x
    decreases |parts|
  {
    if |parts| > 1 {
      assert (parts + [x])[1..] == parts[1..] + [x];
      JoinSnoc(parts[1..], x, d);
    }
  }

  /** Splitting a join on its delimiter gives the parts back, when no part holds the delimiter. */
  lemma {:induction false} SplitJoin(parts: seq<string>, d: char)
    requires parts != []
    requires forall k :: 0 <= k < |parts| ==> NoneOf(parts[k], [d])
    ensures Split(Join(parts, d), [d]) == parts
    decreases |parts|
  {
    if |parts| == 1 {
      SplitNoSeparator(parts[0], [d]);
    } else {
      SplitJoin(parts[1..], d);
      SplitNoSeparator(parts[0], [d]);
      SplitAtSeparator(parts[0], d, Join(parts[1..], d), [d]);
    }
  }

  lemma {:induction false} RemoveQuotesAppend(a: string, b: string)
    ensures RemoveQuotes(a + b) == RemoveQuotes(a) + RemoveQuotes(b)
    decreases |a|
  {
    if a == [] {
      assert a + b == b;
    } else {
      var head := if a[0] == '"' then "" else [a[0]];
      var x, y := RemoveQuotes(a[1..]), RemoveQuotes(b);
      assert RemoveQuotes(a + b) == head + (x + y) by {
        assert (a + b)[0] == a[0] && (a + b)[1..] == a[1..] + b;
        RemoveQuotesAppend(a[1..], b);
      }
      assert head + (x + y) == (head + x) + y;
    }
  }

  lemma {:induction false} RemoveQuotesNoQuote(s: string)
    requires '"' !in s
    ensures RemoveQuotes(s) == s
    decreases |s|
  {
    if s != [] {
      RemoveQuotesNoQuote(s[1..]);
    }
  }

  /** RemoveQuotes distributes over a join whose delimiter is not a quote. */
  lemma {:induction false} RemoveQuotesJoin(parts: seq<string>, d: char)
    requires d != '"'
    ensures RemoveQuotes(Join(parts, d)) ==
            Join(seq(|parts|, k requires 0 <= k < |parts| => RemoveQuotes(parts[k])), d)
    decreases |parts|
  {
    var stripped := seq(|parts|, k requires 0 <= k < |parts| => RemoveQuotes(parts[k]));
    if |parts| > 1 {
      RemoveQuotesJoin(parts[1..], d);
      RemoveQuotesAppend(parts[0] + [d], Join(parts[1..], d));
      RemoveQuotesAppend(parts[0], [d]);
      assert RemoveQuotes([d]) == [d];
      assert stripped[1..] == seq(|parts[1..]|, k requires 0 <= k < |parts[1..]| => RemoveQuotes(parts[1..][k]));
    }
  }

  /** The joined text begins with the first part. */
  lemma {:induction false} JoinStartsWithFirst(parts: seq<string>, d: char)
    requires parts != []
    ensures |Join(parts, d)| >= |parts[0]| && Join(parts, d)[..|parts[0]|] == parts[0]
  {
    if |parts| > 1 {
      assert Join(parts, d) == parts[0] + ([d] + Join(parts[1..], d));
    }
  }

  /** A join of two or more parts is never empty: it holds the delimiter. */
  lemma {:induction false} JoinHoldsDelimiter(parts: seq<string>, d: char)
    requires |parts| >= 2
    ensures d in Join(parts, d)
  {
    assert Join(parts, d) == parts[0] + [d] + Join(parts[1..], d);
    assert Join(parts, d)[|parts[0]|] == d;
  }

  lemma {:induction false} NoneOfJoin(parts: seq<string>, d: char, cs: seq<char>)
    requires d !in cs
    requires forall k :: 0 <= k < |parts| ==> NoneOf(parts[k], cs)
    ensures NoneOf(Join(parts, d), cs)
    decreases |parts|
  {
    if |parts| > 1 {
      NoneOfJoin(parts[1..], d, cs);
    }
  }
}
