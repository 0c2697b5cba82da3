/** Listing a bucket page by page. */
module Listing {

  // ----- SQL's LIKE -----

  /** `text LIKE pattern` with the default escape character. */
  predicate Like(text: string, pattern: string)
    decreases |pattern|, |text|
  {
    if pattern == "" then text == ""
    else if pattern[0] == '%' then Like(text, pattern[1..]) || (text != "" && Like(text[1..], pattern))
    else if pattern[0] == '_' then text != "" && Like(text[1..], pattern[1..])
    else if pattern[0] == '\\' then |pattern| > 1 && text != "" && text[0] == pattern[1] && Like(text[1..], pattern[2..])
    else text != "" && text[0] == pattern[0] && Like(text[1..], pattern[1..])
  }

  /** What the pattern characters stand for: `%` for any text, `_` for any one character, an escape for the
      character after it, and any other character for itself. */
  lemma LikeMeans(text: string, rest: string, c: char)
    ensures Like(text, "") <==> text == ""
    ensures Like(text, "%" + rest) <==> exists i :: 0 <= i <= |text| && Like(text[i..], rest)
    ensures Like(text, "_" + rest) <==> text != "" && Like(text[1..], rest)
    ensures Like(text, "\\" + [c] + rest) <==> text != "" && text[0] == c && Like(text[1..], rest)
    ensures c != '%' && c != '_' && c != '\\' ==>
      (Like(text, [c] + rest) <==> text != "" && text[0] == c && Like(text[1..], rest))
  {
    PercentMeans(text, rest);
    assert ("_" + rest)[1..] == rest;
    assert ("\\" + [c] + rest)[2..] == rest;
    assert ([c] + rest)[1..] == rest;
  }

  lemma {:induction false} PercentMeans(text: string, rest: string)
    ensures Like(text, "%" + rest) <==> exists i :: 0 <= i <= |text| && Like(text[i..], rest)
  {
    var pattern := "%" + rest;
    assert pattern[1..] == rest;
    assert text[0..] == text;
    if text != "" {
      PercentMeans(text[1..], rest);
      forall i | 0 <= i <= |text| - 1 ensures text[1..][i..] == text[i + 1..] {
      }
      if i :| 0 <= i <= |text| && Like(text[i..], rest) {
        if i > 0 { assert Like(text[1..][i - 1..], rest); }
      }
      if i :| 0 <= i <= |text[1..]| && Like(text[1..][i..], rest) {
        assert Like(text[i + 1..], rest);
      }
    }
  }

  predicate Plain(prefix: string) {
    forall i :: 0 <= i < |prefix| ==> prefix[i] != '%' && prefix[i] != '_' && prefix[i] != '\\'
  }

  lemma {:induction false} AnythingIsLike(text: string)
    ensures Like(text, "%")
  {
    if text != "" { AnythingIsLike(text[1..]); }
  }

  lemma {:induction false} PlainPrefix(path: string, prefix: string)
    requires Plain(prefix)
    ensures Like(path, prefix + "%") <==> prefix <= path
    decreases |prefix|
  {
    if prefix == "" {
      assert prefix + "%" == "%";
      AnythingIsLike(path);
    } else {
      assert (prefix + "%")[1..] == prefix[1..] + "%";
      if path != "" {
        PlainPrefix(path[1..], prefix[1..]);
        assert prefix <= path <==> path[0] == prefix[0] && prefix[1..] <= path[1..];
      }
    }
  }

  /** The shortest text that `prefix || '%'` matches. */
  function Shortest(prefix: string): (text: string)
    ensures |text| <= |prefix|
    ensures text == prefix ==> Plain(prefix)
  {
    if prefix == "" then ""
    else if prefix[0] == '%' then Shortest(prefix[1..])
    else if prefix[0] == '_' then "x" + Shortest(prefix[1..])
    else if prefix[0] == '\\' then (if |prefix| == 1 then "%" else [prefix[1]] + Shortest(prefix[2..]))
    else
      var rest := Shortest(prefix[1..]);
      assert prefix == [prefix[0]] + prefix[1..];
      [prefix[0]] + rest
  }

  lemma {:induction false} ShortestIsLike(prefix: string)
    ensures Like(Shortest(prefix), prefix + "%")
    decreases |prefix|
  {
    var pattern := prefix + "%";
    if prefix == "" {
      assert pattern == "%";
      AnythingIsLike("");
    } else if prefix == "\\" {
      assert pattern[2..] == "";
      assert Shortest(prefix)[1..] == "";
    } else if prefix[0] == '\\' {
      ShortestIsLike(prefix[2..]);
      assert pattern[2..] == prefix[2..] + "%";
      assert Shortest(prefix)[1..] == Shortest(prefix[2..]);
    } else {
      ShortestIsLike(prefix[1..]);
      assert pattern[1..] == prefix[1..] + "%";
      if prefix[0] != '%' {
        assert Shortest(prefix)[1..] == Shortest(prefix[1..]);
      }
    }
  }

  ghost predicate MeansStartsWith(prefix: string) {
    forall path :: Like(path, prefix + "%") <==> prefix <= path
  }

  /** The listing's prefix means "starts with" for all paths if and only if it contains no wildcard and no
      escape character. */
  lemma PrefixIsExact(prefix: string)
    ensures MeansStartsWith(prefix) <==> Plain(prefix)
  {
    if Plain(prefix) {
      forall path ensures Like(path, prefix + "%") <==> prefix <= path {
        PlainPrefix(path, prefix);
      }
    } else {
      var path := Shortest(prefix);
      ShortestIsLike(prefix);
      if prefix <= path {
        assert false;
      }
      var pattern := prefix + "%";
      assert Like(path, pattern);
    }
  }

  // ----- the query -----

  /** The database's order on texts. */
  ghost predicate Ordered(lt: (string, string) -> bool) {
    && (forall a :: !lt(a, a))
    && (forall a, b, c :: lt(a, b) && lt(b, c) ==> lt(a, c))
    && (forall a, b :: a == b || lt(a, b) || lt(b, a))
  }

  ghost predicate Ascending(keys: seq<string>, lt: (string, string) -> bool) {
    forall i, j :: 0 <= i < j < |keys| ==> lt(keys[i], keys[j])
  }

  /** `WHERE path LIKE prefix || '%'` */
  function Matching(keys: seq<string>, prefix: string): seq<string> {
    if keys == [] then []
    else (if Like(keys[0], prefix + "%") then [keys[0]] else []) + Matching(keys[1..], prefix)
  }

  /** `WHERE path > after` */
  function Above(keys: seq<string>, after: string, lt: (string, string) -> bool): seq<string> {
    if keys == [] then []
    else (if lt(after, keys[0]) then [keys[0]] else []) + Above(keys[1..], after, lt)
  }

  function Limit(keys: seq<string>, n: nat): seq<string> {
    if |keys| <= n then keys else keys[..n]
  }

  // ----- one page -----

  /** The page size asked for, when it is a number from 1 to 1000. */
  function MaxKeys(asked: int): (n: nat)
    ensures 1 <= n <= 1000
    ensures n == asked || (n == 1000 && !(1 <= asked <= 1000))
  {
    if 0 < asked <= 1000 then asked else 1000
  }

  /** Where a page begins: after the continuation token, or without one after the start point. */
  function StartOf(continuation: string, startAfter: string): string {
    if continuation == "" then startAfter else continuation
  }

  datatype Page = Page(contents: seq<string>, truncated: bool, token: string)

  function PageAfter(matching: seq<string>, after: string, n: nat, lt: (string, string) -> bool): Page
    requires n > 0
  {
    var rows := Limit(Above(matching, after, lt), n + 1);
    if |rows| > n then Page(rows[..n], true, rows[n - 1]) else Page(rows, false, "")
  }

  /** Cuts off the extra row that only says whether there is more. */
  method ListObjects(matching: seq<string>, asked: int, continuation: string, startAfter: string, lt: (string, string) -> bool)
    returns (page: Page)
    ensures page == PageAfter(matching, StartOf(continuation, startAfter), MaxKeys(asked), lt)
  {
    hide Limit, Above;
    var maxKeys := MaxKeys(asked);
    var after := continuation;
    if after == "" {
      after := startAfter;
    }
    var rows := Limit(Above(matching, after, lt), maxKeys + 1);
    var contents := [];
    var i := 0;
    while i < |rows|
      invariant 0 <= i <= |rows| && contents == rows[..i]
    {
      contents := contents + [rows[i]];
      i := i + 1;
    }
    var truncated, token := false, "";
    if |contents| > maxKeys {
      contents := contents[..maxKeys];
      truncated := true;
      token := contents[|contents| - 1];
    }
    page := Page(contents, truncated, token);
  }

  // ----- following the tokens -----

  lemma {:induction false} AboveMembers(keys: seq<string>, after: string, lt: (string, string) -> bool)
    ensures forall k :: k in Above(keys, after, lt) <==> k in keys && lt(after, k)
    ensures |Above(keys, after, lt)| <= |keys|
  {
    if keys != [] {
      AboveMembers(keys[1..], after, lt);
      assert keys == [keys[0]] + keys[1..];
    }
  }

  /** All of an ascending list is above whatever is below its first element. */
  lemma {:induction false} AboveAll(keys: seq<string>, after: string, lt: (string, string) -> bool)
    requires forall i :: 0 <= i < |keys| ==> lt(after, keys[i])
    ensures Above(keys, after, lt) == keys
  {
    if keys != [] { AboveAll(keys[1..], after, lt); }
  }

  /** Above an element of an ascending list is what follows it. */
  lemma {:induction false} AboveElement(keys: seq<string>, i: nat, lt: (string, string) -> bool)
    requires Ordered(lt) && Ascending(keys, lt) && i < |keys|
    ensures Above(keys, keys[i], lt) == keys[i + 1..]
  {
    if i == 0 {
      AboveAll(keys[1..], keys[0], lt);
    } else {
      AboveElement(keys[1..], i - 1, lt);
    }
  }

  /** What is above a later key is above an earlier one, so cutting twice is cutting once. */
  lemma {:induction false} AboveTwice(keys: seq<string>, after: string, token: string, lt: (string, string) -> bool)
    requires Ordered(lt) && lt(after, token)
    ensures Above(Above(keys, after, lt), token, lt) == Above(keys, token, lt)
  {
    if keys != [] {
      AboveTwice(keys[1..], after, token, lt);
      var rest := Above(keys[1..], after, lt);
      if lt(after, keys[0]) {
        assert ([keys[0]] + rest)[1..] == rest;
      } else {
        assert !lt(token, keys[0]);
        assert Above(keys, after, lt) == rest;
      }
    }
  }

  lemma {:induction false} AboveAscending(keys: seq<string>, after: string, lt: (string, string) -> bool)
    requires Ascending(keys, lt)
    ensures Ascending(Above(keys, after, lt), lt)
  {
    if keys != [] {
      AboveAscending(keys[1..], after, lt);
      AboveMembers(keys[1..], after, lt);
      ConsAscending(keys[0], Above(keys[1..], after, lt), keys, lt);
    }
  }

  lemma ConsAscending(k: string, rest: seq<string>, keys: seq<string>, lt: (string, string) -> bool)
    requires keys != [] && k == keys[0] && Ascending(keys, lt) && Ascending(rest, lt)
    requires forall x :: x in rest ==> x in keys[1..]
    ensures Ascending([k] + rest, lt)
  {
    forall i | 0 <= i < |rest| ensures lt(k, rest[i]) {
      assert rest[i] in keys[1..];
    }
  }

  /** A page is the next `n` keys after the start point, or all of them; it says that there are more exactly if
      there are, and its token is then the last key it holds. */
  lemma PageExact(matching: seq<string>, after: string, n: nat, lt: (string, string) -> bool)
    requires n > 0
    ensures var rest, page := Above(matching, after, lt), PageAfter(matching, after, n, lt);
      && page.contents == rest[..if |rest| < n then |rest| else n]
      && (page.truncated <==> |rest| > n)
      && (page.truncated ==> page.token == rest[n - 1]) && (!page.truncated ==> page.token == "")
  {
    hide Above;
    var rest := Above(matching, after, lt);
    assert rest[..|rest|] == rest;
    if |rest| > n { assert rest[..n + 1][..n] == rest[..n]; }
  }

  /** One page ends where the next begins. */
  lemma PageStep(matching: seq<string>, after: string, n: nat, lt: (string, string) -> bool)
    requires n > 0 && Ordered(lt) && Ascending(matching, lt) && PageAfter(matching, after, n, lt).truncated
    ensures var page := PageAfter(matching, after, n, lt);
      && |page.contents| == n
      && Above(matching, after, lt) == page.contents + Above(matching, page.token, lt)
  {
    hide Above, Ordered, Ascending;
    var rows := Above(matching, after, lt);
    var page := PageAfter(matching, after, n, lt);
    assert page.token == rows[n - 1] && page.contents == rows[..n];
    AboveMembers(matching, after, lt);
    AboveAscending(matching, after, lt);
    AboveElement(rows, n - 1, lt);
    assert rows[n - 1] in rows;
    AboveTwice(matching, after, page.token, lt);
  }

  predicate NonEmpty(keys: seq<string>) {
    forall i :: 0 <= i < |keys| ==> keys[i] != ""
  }

  /** A token of nonempty keys is a continuation that the next request honours. */
  lemma TokenContinues(matching: seq<string>, after: string, startAfter: string, n: nat, lt: (string, string) -> bool)
    requires n > 0 && NonEmpty(matching) && PageAfter(matching, after, n, lt).truncated
    ensures var token := PageAfter(matching, after, n, lt).token; StartOf(token, startAfter) == token
  {
    var rows := Above(matching, after, lt);
    hide Above;
    AboveMembers(matching, after, lt);
    assert rows[n - 1] in rows;
  }

  /** A client's listing: it repeats its request with the token of the page before, until a page is not
      truncated. The start point stays in the request, as the handler prefers the token. */
  ghost function Follow(matching: seq<string>, continuation: string, startAfter: string, n: nat, lt: (string, string) -> bool): seq<string>
    requires n > 0 && Ordered(lt) && Ascending(matching, lt) && NonEmpty(matching)
    decreases |Above(matching, StartOf(continuation, startAfter), lt)|
  {
    var after := StartOf(continuation, startAfter);
    var page := PageAfter(matching, after, n, lt);
    if !page.truncated then page.contents
    else
      PageStep(matching, after, n, lt);
      TokenContinues(matching, after, startAfter, n, lt);
      page.contents + Follow(matching, page.token, startAfter, n, lt)
  }

  /** Following the tokens ends, and the pages together are exactly the keys after the start point, each
      once and in order, whatever the page size. */
  lemma {:induction false} PagesAreComplete(matching: seq<string>, continuation: string, startAfter: string, n: nat,
                                            lt: (string, string) -> bool)
    requires n > 0 && Ordered(lt) && Ascending(matching, lt) && NonEmpty(matching)
    ensures Follow(matching, continuation, startAfter, n, lt) == Above(matching, StartOf(continuation, startAfter), lt)
    decreases |Above(matching, StartOf(continuation, startAfter), lt)|
  {
    hide Above, Ordered, Ascending, NonEmpty;
    var after := StartOf(continuation, startAfter);
    var page := PageAfter(matching, after, n, lt);
    if page.truncated {
      PageStep(matching, after, n, lt);
      TokenContinues(matching, after, startAfter, n, lt);
      PagesAreComplete(matching, page.token, startAfter, n, lt);
    }
  }

  lemma {:induction false} MatchingMembers(keys: seq<string>, prefix: string)
    ensures forall k :: k in Matching(keys, prefix) <==> k in keys && Like(k, prefix + "%")
  {
    hide Like;
    if keys != [] {
      MatchingMembers(keys[1..], prefix);
      assert keys == [keys[0]] + keys[1..];
    }
  }

  lemma {:induction false} MatchingAscending(keys: seq<string>, prefix: string, lt: (string, string) -> bool)
    requires Ascending(keys, lt)
    ensures Ascending(Matching(keys, prefix), lt)
  {
    hide Like;
    if keys != [] {
      MatchingAscending(keys[1..], prefix, lt);
      MatchingMembers(keys[1..], prefix);
      ConsAscending(keys[0], Matching(keys[1..], prefix), keys, lt);
    }
  }

  /** A whole listing of a bucket whose keys sort after the empty string, with a prefix free of wildcards:
      exactly the keys with that prefix, in order. */
  lemma ListsWholeBucket(keys: seq<string>, prefix: string, n: nat, lt: (string, string) -> bool)
    requires n > 0 && Ordered(lt) && Ascending(keys, lt) && NonEmpty(keys) && Plain(prefix)
    requires forall k :: k in keys ==> lt("", k)
    ensures Ascending(Matching(keys, prefix), lt) && NonEmpty(Matching(keys, prefix))
    ensures var all := Follow(Matching(keys, prefix), "", "", n, lt);
      Ascending(all, lt) && forall k :: k in all <==> k in keys && prefix <= k
  {
    hide Like, Ordered, Ascending, Plain, Above, Follow;
    var matching := Matching(keys, prefix);
    MatchingAscending(keys, prefix, lt);
    MatchingMembers(keys, prefix);
    forall i | 0 <= i < |matching| ensures matching[i] != "" {
      assert matching[i] in keys;
    }
    PagesAreComplete(matching, "", "", n, lt);
    AboveMembers(matching, "", lt);
    AboveAscending(matching, "", lt);
    forall k ensures Like(k, prefix + "%") <==> prefix <= k {
      PlainPrefix(k, prefix);
    }
  }
}
