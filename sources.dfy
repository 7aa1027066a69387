/** The source-list helpers of main.py: turning the set of source URLs of an
    answer into a "Sources:" block of Markdown links, one per URL, in sorted
    order. */
module Sources {
  import opened Strings

  /** `get_page_name`: the last path segment of `url`, without ".html", with
      dots and underscores turned into spaces, capitalized. */
  function GetPageName(url: string): (r: string)
    ensures '/' !in r && '.' !in r && '_' !in r
  {
    var segment := LastSegment(url, '/');
    var cleaned := CleanSegment(segment);
    CleanSegmentCharacters(segment);
    var r := Capitalize(cleaned);
    assert forall k :: 0 <= k < |r| ==> r[k] != '/' && r[k] != '.' && r[k] != '_' by {
      forall k | 0 <= k < |r|
        ensures r[k] != '/' && r[k] != '.' && r[k] != '_'
      {
        assert cleaned[k] in cleaned;
        assert ToLower(r[k]) == ToLower(cleaned[k]);
      }
    }
    r
  }

  /** The three `replace` calls of `get_page_name`, in their order. */
  function CleanSegment(segment: string): string {
    ReplaceAll(ReplaceAll(ReplaceAll(segment, ".html", ""), ".", " "), "_", " ")
  }

  /** The last segment holds no slash and only characters of the URL. */
  lemma LastSegmentCharacters(url: string)
    ensures '/' !in LastSegment(url, '/')
    ensures forall ch :: ch in LastSegment(url, '/') ==> ch in url
  {
    assert '/' !in LastSegment(url, '/') by {
      LastSegmentAfterSeparator("", '/', url);
    }
    assert forall ch :: ch in LastSegment(url, '/') ==> ch in url by {
      var parts := Split(url, '/');
      assert LastSegment(url, '/') == parts[|parts| - 1];
      JoinSplit(url, '/');
      JoinHoldsLast(parts, "/");
    }
  }

  /** Cleaning removes every dot and underscore and brings in nothing but
      spaces. */
  lemma CleanSegmentCharacters(segment: string)
    ensures '.' !in CleanSegment(segment) && '_' !in CleanSegment(segment)
    ensures forall ch :: ch in CleanSegment(segment) ==> ch in segment || ch == ' '
  {
    var b := ReplaceAll(segment, ".html", "");
    ReplaceKeepsCharacters(segment, ".html", "");
    var c := ReplaceAll(b, ".", " ");
    ReplaceKeepsCharacters(b, ".", " ");
    ReplaceRemovesCharacter(b, '.', " ");
    ReplaceKeepsCharacters(c, "_", " ");
    ReplaceRemovesCharacter(c, '_', " ");
  }

  /** A page name never holds a slash, a dot or an underscore, and every
      other character that is not a letter comes from the URL or is a
      space. */
  lemma GetPageNameCharacters(url: string)
    ensures '/' !in GetPageName(url) && '.' !in GetPageName(url) && '_' !in GetPageName(url)
    ensures forall k :: 0 <= k < |GetPageName(url)| && !IsUpper(GetPageName(url)[k])
                          && !IsLower(GetPageName(url)[k]) ==>
                          GetPageName(url)[k] in url || GetPageName(url)[k] == ' '
  {
    var a := LastSegment(url, '/');
    LastSegmentCharacters(url);
    var d := CleanSegment(a);
    CleanSegmentCharacters(a);
    var r := Capitalize(d);
    CapitalizeCases(d);
    assert r == GetPageName(url);
    forall k | 0 <= k < |r|
      ensures r[k] != '/' && r[k] != '.' && r[k] != '_'
      ensures !IsUpper(r[k]) && !IsLower(r[k]) ==> r[k] in url || r[k] == ' '
    {
      assert d[k] in d;
      if IsUpper(d[k]) || IsLower(d[k]) {
        assert ToLower(r[k]) == ToLower(d[k]);
      } else {
        assert r[k] == d[k];
      }
    }
  }

  /** Every character of the last part of a join is a character of the
      join. */
  lemma {:induction false} JoinHoldsLast(parts: seq<string>, sep: string)
    requires |parts| >= 1
    ensures forall ch :: ch in parts[|parts| - 1] ==> ch in Join(parts, sep)
    decreases |parts|
  {
    if |parts| > 1 {
      JoinHoldsLast(parts[1..], sep);
    }
  }

  /** The page name depends only on the text after the last slash. */
  lemma GetPageNameOfLastSegment(prefix: string, tail: string)
    ensures GetPageName(prefix + "/" + tail) == GetPageName(tail)
  {
    LastSegmentAfterSeparator(prefix, '/', tail);
  }

  /** Python's `has_substring`: scans the collection and reports whether
      some element contains `substring`; an empty collection gives false. */
  method HasSubstring(strings: set<string>, substring: string) returns (found: bool)
    ensures found <==> exists s :: s in strings && Contains(s, substring)
  {
    var rest := strings;
    while rest != {}
      invariant rest <= strings
      invariant forall s :: s in strings - rest ==> !Contains(s, substring)
      decreases |rest|
    {
      var s :| s in rest;
      if Contains(s, substring) {
        return true;
      }
      rest := rest - {s};
    }
    return false;
  }

  predicate Distinct(s: seq<string>) {
    forall i, j :: 0 <= i < j < |s| ==> s[i] != s[j]
  }

  /** `list(sources_url)`: the elements of the set, each once, in whatever
      order the set yields them. */
  method ListOf(strings: set<string>) returns (list: seq<string>)
    ensures forall x :: x in list <==> x in strings
    ensures Distinct(list)
  {
    var rest := strings;
    list := [];
    while rest != {}
      invariant rest <= strings
      invariant forall x :: x in list <==> x in strings - rest
      invariant Distinct(list)
      decreases |rest|
    {
      var x :| x in rest;
      forall i | 0 <= i < |list|
        ensures list[i] != x
      {
        assert list[i] in list;
      }
      list := list + [x];
      rest := rest - {x};
    }
  }

  /** A sequence is free of repetitions exactly when no element occurs in
      it twice. */
  lemma {:induction false} DistinctIffSingleCounts(s: seq<string>)
    ensures Distinct(s) <==> forall x :: multiset(s)[x] <= 1
    decreases |s|
  {
    if s != [] {
      DistinctIffSingleCounts(s[1..]);
      assert s == [s[0]] + s[1..];
      assert multiset(s) == multiset{s[0]} + multiset(s[1..]);
      if Distinct(s) {
        assert s[0] !in s[1..];
        assert Distinct(s[1..]) by {
          forall i, j | 0 <= i < j < |s[1..]| ensures s[1..][i] != s[1..][j] {
            assert s[1..][i] == s[i + 1] && s[1..][j] == s[j + 1];
          }
        }
      } else {
        var i, j :| 0 <= i < j < |s| && s[i] == s[j];
        if i == 0 {
          assert s[j] in s[1..] by { assert s[1..][j - 1] == s[j]; }
          assert multiset(s)[s[0]] >= 2;
        } else {
          assert s[1..][i - 1] == s[i] && s[1..][j - 1] == s[j];
          assert !Distinct(s[1..]);
          var x :| multiset(s[1..])[x] > 1;
          assert multiset(s)[x] > 1;
        }
      }
    }
  }

  /** Sorting a repetition-free list gives a strictly ascending one with the
      same elements. */
  lemma SortOfDistinct(list: seq<string>)
    requires Distinct(list)
    ensures StrictlySorted(Sort(list))
    ensures forall x :: x in Sort(list) <==> x in list
  {
    var sorted := Sort(list);
    SortSorted(list);
    DistinctIffSingleCounts(list);
    DistinctIffSingleCounts(sorted);
    SortedDistinctIsStrict(sorted);
    assert forall x :: x in sorted <==> x in multiset(list);
  }

  /** One Markdown link per source: `[page name](url)`. */
  function SourceLink(source: string): string {
    "[" + GetPageName(source) + "](" + source + ")"
  }

  /** A heading line over newline-terminated lines, split at newlines: the
      heading, the lines, and the empty piece after the final newline. */
  lemma HeadedLines(heading: string, lines: seq<string>)
    requires '\n' !in heading
    requires forall i :: 0 <= i < |lines| ==> '\n' !in lines[i]
    ensures Split(heading + "\n" + Terminated(lines), '\n') == [heading] + lines + [""]
  {
    TerminatedSplit(lines, "");
    assert Terminated(lines) + "" == Terminated(lines);
    assert heading + "\n" + Terminated(lines) == heading + ['\n'] + Terminated(lines);
    SplitConcat(heading, '\n', Terminated(lines));
    SplitWithoutSeparator(heading, '\n');
  }

  /** The Markdown lines `create_sources_string` writes for `sources`. */
  function Links(sources: seq<string>): seq<string> {
    seq(|sources|, i requires 0 <= i < |sources| => SourceLink(sources[i]))
  }

  /** A source without a newline gives a link without one. */
  lemma SourceLinkIsOneLine(source: string)
    requires '\n' !in source
    ensures '\n' !in SourceLink(source)
  {
    GetPageNameCharacters(source);
  }

  /** The "Sources:" block for sources already in order. */
  function SourcesBlock(order: seq<string>): string {
    "Sources:\n" + Terminated(Links(order))
  }

  /** The block read line by line: the heading, one link per source, in
      order, and the empty piece after the final newline. */
  lemma SourcesBlockLines(order: seq<string>)
    requires forall i :: 0 <= i < |order| ==> '\n' !in order[i]
    ensures Split(SourcesBlock(order), '\n') == ["Sources:"] + Links(order) + [""]
  {
    var links := Links(order);
    assert forall i :: 0 <= i < |links| ==> '\n' !in links[i] by {
      forall i | 0 <= i < |links|
        ensures '\n' !in links[i]
      {
        SourceLinkIsOneLine(order[i]);
      }
    }
    HeadedLines("Sources:", links);
    assert SourcesBlock(order) == "Sources:" + "\n" + Terminated(links);
  }

  /** Appending a line to a block keeps its heading in front. */
  lemma AppendLine(heading: string, block: string, line: string)
    ensures heading + block + line + "\n" == heading + (block + line + "\n")
  {
  }

  /** The links built so far, one more link further. */
  lemma LinksExtend(links: seq<string>, sources: seq<string>, i: nat)
    requires i < |sources| && |links| == i
    requires forall j :: 0 <= j < i ==> links[j] == SourceLink(sources[j])
    ensures forall j :: 0 <= j <= i ==> (links + [SourceLink(sources[i])])[j] == SourceLink(sources[j])
  {
  }

  /** `create_sources_string`: `""` when there are no sources or none of
      them contains ".html"; otherwise the "Sources:" heading followed by
      one link line per source in ascending order. Only one ascending order
      of a set exists (`Strings.StrictlySortedUnique`), so the result is
      determined by the set. */
  method CreateSourcesString(sourcesUrl: set<string>) returns (r: string)
    ensures r == "" <==> forall s :: s in sourcesUrl ==> !Contains(s, ".html")
    ensures r != "" ==> exists order :: && StrictlySorted(order)
                                        && (forall x :: x in order <==> x in sourcesUrl)
                                        && r == SourcesBlock(order)
  {
    if sourcesUrl == {} {
      return "";
    }
    var has := HasSubstring(sourcesUrl, ".html");
    if !has {
      return "";
    }
    assert !forall s :: s in sourcesUrl ==> !Contains(s, ".html");
    var sourcesList := ListOf(sourcesUrl);
    ghost var unsorted := sourcesList;
    sourcesList := Sort(sourcesList);
    ghost var links: seq<string> := [];
    r := "Sources:\n";
    var i := 0;
    while i < |sourcesList|
      invariant 0 <= i <= |sourcesList| && |links| == i
      invariant forall j :: 0 <= j < i ==> links[j] == SourceLink(sourcesList[j])
      invariant r == "Sources:\n" + Terminated(links)
    {
      var link := SourceLink(sourcesList[i]);
      TerminatedAppend(links, link);
      AppendLine("Sources:\n", Terminated(links), link);
      LinksExtend(links, sourcesList, i);
      r := r + link + "\n";
      links := links + [link];
      i := i + 1;
    }
    assert links == Links(sourcesList);
    assert r == SourcesBlock(sourcesList) && |r| > 0;
    SortOfDistinct(unsorted);
    assert StrictlySorted(sourcesList) && (forall x :: x in sourcesList <==> x in sourcesUrl);
  }
}
