/** What the results page sees of a navigation target: the `search` part of
    the location (section 6.1 of the WHATWG URL Standard gives `?` followed by
    the query, or the empty string), after the URL parser has percent-encoded
    the query's code points in the special-query percent-encode set, as it
    does for http and https URLs. */
module Location {
  import Seqs
  import Utf8
  import UriComponent
  import SearchParams

  /** The special-query percent-encode set (section 1.3 of the WHATWG URL
      Standard): C0 controls, space, `"`, `#`, `<`, `>`, `'` and every code
      point above U+007E. */
  predicate InSpecialQuerySet(c: char) {
    c as int < 0x20 || c as int > 0x7E
    || c == ' ' || c == '"' || c == '#' || c == '<' || c == '>' || c == '\''
  }

  function QueryEncodeChar(c: char): string {
    if InSpecialQuerySet(c) then UriComponent.PercentBytes(Utf8.EncodeScalar(c)) else [c]
  }

  /** The URL parser's treatment of the query: code points of the set are
      replaced by the percent-encoding of their UTF-8 bytes. */
  function QueryEncode(s: string): (r: string)
    ensures Utf8.IsAscii(r)
    ensures forall i :: 0 <= i < |r| ==> r[i] in s || r[i] == '%' || UriComponent.IsUpperHexDigit(r[i])
  {
    if s == [] then [] else QueryEncodeChar(s[0]) + QueryEncode(s[1..])
  }

  /** C0 controls and space (U+0000 to U+0020), which the URL parser trims
      from both ends of its input (section 4.4 of the WHATWG URL Standard). */
  predicate IsC0OrSpace(c: char) {
    c as int <= 0x20
  }

  /** ASCII tab or newline (U+0009, U+000A, U+000D), which the URL parser
      removes from anywhere in its input. */
  predicate IsTabOrNewline(c: char) {
    c == '\t' || c == '\n' || c == '\r'
  }

  /** `s` without its leading C0 controls and spaces. */
  function TrimLeading(s: string): (r: string)
    ensures |r| <= |s| && r == s[|s| - |r|..]
    ensures forall i :: 0 <= i < |s| - |r| ==> IsC0OrSpace(s[i])
    ensures r == [] || !IsC0OrSpace(r[0])
  {
    if s != [] && IsC0OrSpace(s[0]) then TrimLeading(s[1..]) else s
  }

  /** `s` without its trailing C0 controls and spaces. */
  function TrimTrailing(s: string): (r: string)
    ensures |r| <= |s| && r == s[..|r|]
    ensures forall i :: |r| <= i < |s| ==> IsC0OrSpace(s[i])
    ensures r == [] || !IsC0OrSpace(r[|r| - 1])
  {
    if s != [] && IsC0OrSpace(s[|s| - 1]) then TrimTrailing(s[..|s| - 1]) else s
  }

  /** `s` with every ASCII tab or newline removed and the other characters
      kept in order; a string without them is left unchanged. */
  function RemoveTabNewline(s: string): (r: string)
    ensures forall i :: 0 <= i < |r| ==> !IsTabOrNewline(r[i]) && r[i] in s
    ensures Seqs.IsSubsequence(r, s) && |r| <= |s|
    ensures (forall i :: 0 <= i < |s| ==> !IsTabOrNewline(s[i])) ==> r == s
  {
    Seqs.RemoveWhere(s, IsTabOrNewline)
  }

  /** Removing tabs and newlines removes only them: every other character
      occurs as often as before. */
  lemma RemoveTabNewlineCounts(s: string, c: char)
    requires !IsTabOrNewline(c)
    ensures multiset(RemoveTabNewline(s))[c] == multiset(s)[c]
  {
    Seqs.RemoveWhereCounts(s, IsTabOrNewline, c);
  }

  /** What the URL parser works on: the target trimmed of C0 controls and
      spaces at both ends, then stripped of tabs and newlines. */
  function ParserInput(href: string): (r: string)
    ensures forall i :: 0 <= i < |r| ==> !IsTabOrNewline(r[i]) && r[i] in href
  {
    RemoveTabNewline(TrimTrailing(TrimLeading(href)))
  }

  /** A target without tabs and newlines, and without C0 controls or spaces
      at its ends, reaches the parser unchanged. */
  lemma ParserInputOfClean(href: string)
    requires forall i :: 0 <= i < |href| ==> !IsTabOrNewline(href[i])
    requires href == [] || (!IsC0OrSpace(href[0]) && !IsC0OrSpace(href[|href| - 1]))
    ensures ParserInput(href) == href
  {
  }

  /** The part of `s` before its first `#`. */
  function BeforeFragment(s: string): (r: string)
    ensures '#' !in r
    ensures |r| <= |s| && r == s[..|r|]
  {
    var h := Seqs.FirstIndex(s, '#');
    if h == -1 then s else s[..h]
  }

  /** The part of a target before its query and fragment. */
  function PathOf(href: string): (p: string)
    ensures '?' !in p && '#' !in p
    ensures |p| <= |ParserInput(href)| && p == ParserInput(href)[..|p|]
  {
    PathIn(ParserInput(href))
  }

  /** The part of the parser's input before its query and fragment. */
  function PathIn(input: string): (p: string)
    ensures '?' !in p && '#' !in p
    ensures |p| <= |input| && p == input[..|p|]
  {
    var beforeHash := BeforeFragment(input);
    var k := Seqs.FirstIndex(beforeHash, '?');
    if k == -1 then beforeHash else beforeHash[..k]
  }

  /** `location.search` after navigating to `href`: empty, or `?` and the
      query-encoded text between the first `?` and the first `#`. */
  function SearchOf(href: string): (r: string)
    ensures r == [] || (r[0] == '?' && Utf8.IsAscii(r[1..]))
    ensures forall i :: 0 <= i < |r| ==> r[i] != '#' && !IsTabOrNewline(r[i])
  {
    SearchIn(ParserInput(href))
  }

  /** `location.search` for the parser's input. */
  function SearchIn(input: string): (r: string)
    requires forall i :: 0 <= i < |input| ==> !IsTabOrNewline(input[i])
    ensures r == [] || (r[0] == '?' && Utf8.IsAscii(r[1..]))
    ensures forall i :: 0 <= i < |r| ==> r[i] != '#' && !IsTabOrNewline(r[i])
  {
    var beforeHash := BeforeFragment(input);
    var k := Seqs.FirstIndex(beforeHash, '?');
    if k == -1 then ""
    else
      var rawQuery := beforeHash[k + 1..];
      var query := QueryEncode(rawQuery);
      QueryEncodeKeepsOut(input, beforeHash, rawQuery);
      if query == "" then "" else QuestionMarkThen(query); "?" + query
  }

  /** Text taken from the parser's input before its fragment holds no `#`
      and no tab or newline, and query-encoding it adds neither. */
  lemma QueryEncodeKeepsOut(input: string, beforeHash: string, rawQuery: string)
    requires forall i :: 0 <= i < |input| ==> !IsTabOrNewline(input[i])
    requires '#' !in beforeHash && |beforeHash| <= |input| && beforeHash == input[..|beforeHash|]
    requires forall i :: 0 <= i < |rawQuery| ==> rawQuery[i] in beforeHash
    ensures forall i :: 0 <= i < |QueryEncode(rawQuery)| ==>
      QueryEncode(rawQuery)[i] != '#' && !IsTabOrNewline(QueryEncode(rawQuery)[i])
  {
    var q := QueryEncode(rawQuery);
    forall i | 0 <= i < |q| ensures q[i] != '#' && !IsTabOrNewline(q[i]) {
      if q[i] in rawQuery {
        var j :| 0 <= j < |rawQuery| && rawQuery[j] == q[i];
        assert q[i] in beforeHash;
        var m :| 0 <= m < |beforeHash| && beforeHash[m] == q[i];
        assert input[m] == q[i];
      }
    }
  }

  lemma QuestionMarkThen(query: string)
    requires Utf8.IsAscii(query)
    requires forall i :: 0 <= i < |query| ==> query[i] != '#' && !IsTabOrNewline(query[i])
    ensures var r := "?" + query;
      r[0] == '?' && Utf8.IsAscii(r[1..]) && forall i :: 0 <= i < |r| ==> r[i] != '#' && !IsTabOrNewline(r[i])
  {
    var r := "?" + query;
    assert r[1..] == query;
    forall i | 0 <= i < |r| ensures r[i] != '#' && !IsTabOrNewline(r[i]) {
      if i > 0 {
        assert r[i] == query[i - 1];
      }
    }
  }

  /** The parser drops a tab inside the query rather than encoding it. */
  lemma SearchDropsTab()
    ensures SearchOf("/p?a\tb") == "?ab"
  {
    TabExampleInput();
    TabExampleSearch();
  }

  lemma TabExampleInput()
    ensures ParserInput("/p?a\tb") == "/p?ab"
  {
    TabExampleTrim();
    TabExampleRemove();
  }

  lemma TabExampleTrim()
    ensures TrimTrailing(TrimLeading("/p?a\tb")) == "/p?a\tb"
  {
    assert TrimLeading("/p?a\tb") == "/p?a\tb";
  }

  lemma TabExampleRemove()
    ensures RemoveTabNewline("/p?a\tb") == "/p?ab"
  {
    var pre, tab, post := "/p?a", "\t", "b";
    assert "/p?a\tb" == pre + (tab + post);
    TabExampleClean(pre, post);
    TabExampleTab(tab);
    Seqs.RemoveWhereAppend(pre, tab + post, IsTabOrNewline);
    Seqs.RemoveWhereAppend(tab, post, IsTabOrNewline);
  }

  lemma TabExampleClean(pre: string, post: string)
    requires pre == "/p?a" && post == "b"
    ensures RemoveTabNewline(pre) == pre && RemoveTabNewline(post) == post
  {
    assert !IsTabOrNewline(pre[0]) && !IsTabOrNewline(pre[1]) && !IsTabOrNewline(pre[2]) && !IsTabOrNewline(pre[3]);
  }

  lemma TabExampleTab(tab: string)
    requires tab == "\t"
    ensures RemoveTabNewline(tab) == []
  {
    assert IsTabOrNewline(tab[0]) && tab[1..] == [];
  }


  lemma TabExampleSearch()
    ensures SearchIn("/p?ab") == "?ab"
  {
    assert BeforeFragment("/p?ab") == "/p?ab";
    assert Seqs.FirstIndex("/p?ab", '?') == 2;
    assert "/p?ab"[3..] == "ab";
    QueryEncodeIdentity("ab");
  }

  lemma {:induction false} QueryEncodeAppend(a: string, b: string)
    ensures QueryEncode(a + b) == QueryEncode(a) + QueryEncode(b)
  {
    if a != [] {
      assert (a + b)[0] == a[0];
      assert (a + b)[1..] == a[1..] + b;
      QueryEncodeAppend(a[1..], b);
    } else {
      assert a + b == b;
    }
  }

  /** A target made of a plain path and a query splits back into them. */
  lemma TargetParts(path: string, query: string)
    requires '?' !in path && '#' !in path && '#' !in query && query != []
    requires forall i :: 0 <= i < |path| ==> !IsTabOrNewline(path[i])
    requires forall i :: 0 <= i < |query| ==> !IsTabOrNewline(query[i])
    requires (path == [] || !IsC0OrSpace(path[0])) && !IsC0OrSpace(query[|query| - 1])
    ensures PathOf(path + "?" + query) == path
    ensures SearchOf(path + "?" + query) == "?" + QueryEncode(query)
  {
    CleanTarget(path, query);
    ParserInputOfClean(path + "?" + query);
    PathInParts(path, query);
    SearchInParts(path, query);
  }

  /** The path of the parser's input `path?query` is `path`. */
  lemma PathInParts(path: string, query: string)
    requires '?' !in path && '#' !in path && '#' !in query
    ensures PathIn(path + "?" + query) == path
  {
    NoFragment(path, query);
    QuestionMarkAfterPath(path, query);
  }

  /** The search of the parser's input `path?query` is `?` and the encoded
      query. */
  lemma SearchInParts(path: string, query: string)
    requires '?' !in path && '#' !in path && '#' !in query && query != []
    requires forall i :: 0 <= i < |path + "?" + query| ==> !IsTabOrNewline((path + "?" + query)[i])
    ensures SearchIn(path + "?" + query) == "?" + QueryEncode(query)
  {
    var href := path + "?" + query;
    NoFragment(path, query);
    QuestionMarkAfterPath(path, query);
    assert href[|path| + 1..] == query;
    var encoded := QueryEncode(query);
    assert encoded == QueryEncodeChar(query[0]) + QueryEncode(query[1..]);
    assert encoded != "";
  }

  lemma NoFragment(path: string, query: string)
    requires '#' !in path && '#' !in query
    ensures BeforeFragment(path + "?" + query) == path + "?" + query
  {
    var href := path + "?" + query;
    assert '#' !in href;
  }

  lemma CleanTarget(path: string, query: string)
    requires query != []
    requires forall i :: 0 <= i < |path| ==> !IsTabOrNewline(path[i])
    requires forall i :: 0 <= i < |query| ==> !IsTabOrNewline(query[i])
    requires (path == [] || !IsC0OrSpace(path[0])) && !IsC0OrSpace(query[|query| - 1])
    ensures var href := path + "?" + query;
      (forall i :: 0 <= i < |href| ==> !IsTabOrNewline(href[i]))
      && href != [] && !IsC0OrSpace(href[0]) && !IsC0OrSpace(href[|href| - 1])
  {
    var href := path + "?" + query;
    forall i | 0 <= i < |href| ensures !IsTabOrNewline(href[i]) {
      if i < |path| {
        assert href[i] == path[i];
      } else if i > |path| {
        assert href[i] == query[i - |path| - 1];
      }
    }
    assert href[|href| - 1] == query[|query| - 1];
  }

  lemma QuestionMarkAfterPath(path: string, query: string)
    requires '?' !in path
    ensures Seqs.FirstIndex(path + "?" + query, '?') == |path|
    ensures (path + "?" + query)[..|path|] == path
  {
    var href := path + "?" + query;
    assert href[|path|] == '?';
    assert forall i :: 0 <= i < |path| ==> href[i] == path[i];
  }

  /** The URL parser's re-encoding of one `encodeURIComponent` chunk
      percent-decodes to the UTF-8 bytes of the character. */
  lemma QueryEncodeOfEncodedChar(c: char, tail: seq<Utf8.Byte>)
    ensures SearchParams.PercentDecode(Utf8.Encode(QueryEncode(UriComponent.EncodeChar(c))) + tail)
         == Utf8.EncodeScalar(c) + SearchParams.PercentDecode(tail)
  {
    var e := UriComponent.EncodeChar(c);
    if c == '\'' {
      assert e == [c];
      assert QueryEncode(e) == QueryEncodeChar(c) + QueryEncode([]);
      assert QueryEncode(e) == UriComponent.PercentBytes(Utf8.EncodeScalar(c));
      SearchParams.PercentDecodeTriples(Utf8.EncodeScalar(c), tail);
    } else {
      QueryEncodeIdentity(e);
      SearchParams.PercentDecodeChar(c, tail);
    }
  }

  /** The URL parser's re-encoding of an `encodeURIComponent` value only turns
      `'` into `%27`, so it percent-decodes to the same bytes. */
  lemma {:induction false} QueryEncodeOfEncoded(s: string)
    ensures SearchParams.PercentDecode(Utf8.Encode(QueryEncode(UriComponent.Encode(s)))) == Utf8.Encode(s)
  {
    if s != [] {
      var e := UriComponent.EncodeChar(s[0]);
      var rest := UriComponent.Encode(s[1..]);
      assert UriComponent.Encode(s) == e + rest;
      QueryEncodeAppend(e, rest);
      Utf8.EncodeAppend(QueryEncode(e), QueryEncode(rest));
      QueryEncodeOfEncodedChar(s[0], Utf8.Encode(QueryEncode(rest)));
      QueryEncodeOfEncoded(s[1..]);
    }
  }

  /** Strings of characters outside the set are left alone. */
  lemma {:induction false} QueryEncodeIdentity(s: string)
    requires forall i :: 0 <= i < |s| ==> !InSpecialQuerySet(s[i])
    ensures QueryEncode(s) == s
  {
    if s != [] {
      QueryEncodeIdentity(s[1..]);
    }
  }
}
