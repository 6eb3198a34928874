/** The title list of the wiki: `fetch_all_titles` follows the `allpages`
    continuation from one API response to the next and gathers every title,
    and the titles file holds one title per line. The API's answers are
    given as the sequence of responses the loop receives, one per request. */
module AllTitles {
  import opened Options

  /** The part of an `allpages` response the loop reads: the titles of the
      page of results, and `continue.apcontinue` when the key is present. */
  datatype Response = Response(titles: seq<string>, apcontinue: Option<string>)

  /** The titles of the given responses, in order. */
  function Concat(responses: seq<Response>): seq<string>
  {
    if responses == [] then []
    else Concat(responses[..|responses| - 1]) + responses[|responses| - 1].titles
  }

  /** The responses end: some response carries no continuation. */
  predicate Ends(responses: seq<Response>)
  {
    exists k :: 0 <= k < |responses| && responses[k].apcontinue.None?
  }

  /** fetch_all_titles. `requests` lists the continuation value each request
      carries (None for the first, which has no `apcontinue`). The loop makes
      exactly as many requests as it takes to reach the first response
      without a continuation, each follow-up carries the previous response's
      `apcontinue`, and the titles are those of the responses read, in
      order. */
  method FetchAllTitles(responses: seq<Response>) returns (titles: seq<string>, requests: seq<Option<string>>)
    requires Ends(responses)
    ensures 1 <= |requests| <= |responses|
    ensures responses[|requests| - 1].apcontinue.None?
    ensures forall i :: 0 <= i < |requests| - 1 ==> responses[i].apcontinue.Some?
    ensures requests[0] == None
    ensures forall i :: 0 < i < |requests| ==> requests[i] == responses[i - 1].apcontinue
    ensures titles == Concat(responses[..|requests|])
  {
    titles, requests := [], [];
    var request: Option<string> := None;
    var done := false;
    var i := 0;
    while !done
      invariant 0 <= i <= |responses| && |requests| == i
      invariant !done ==> forall j :: 0 <= j < i ==> responses[j].apcontinue.Some?
      invariant !done ==> request == if i == 0 then None else responses[i - 1].apcontinue
      invariant done ==> i >= 1 && responses[i - 1].apcontinue.None?
      invariant done ==> forall j :: 0 <= j < i - 1 ==> responses[j].apcontinue.Some?
      invariant i > 0 ==> requests[0] == None
      invariant forall j :: 0 < j < i ==> requests[j] == responses[j - 1].apcontinue
      invariant titles == Concat(responses[..i])
      decreases |responses| - i
    {
      ghost var k :| 0 <= k < |responses| && responses[k].apcontinue.None?;
      assert i <= k;
      requests := requests + [request];
      var response := responses[i];
      titles := titles + response.titles;
      assert responses[..i + 1][..i] == responses[..i];
      i := i + 1;
      if response.apcontinue.Some? {
        request := response.apcontinue;
      } else {
        done := true;
      }
    }
  }

  /** The titles file: each title followed by a newline. */
  function TitlesFile(titles: seq<string>): string
  {
    if titles == [] then "" else titles[0] + "\n" + TitlesFile(titles[1..])
  }

  /** One more title adds its line at the end of the file. */
  lemma {:induction false} TitlesFileAppend(titles: seq<string>, title: string)
    ensures TitlesFile(titles + [title]) == TitlesFile(titles) + title + "\n"
  {
    if titles != [] {
      assert (titles + [title])[1..] == titles[1..] + [title];
      TitlesFileAppend(titles[1..], title);
    } else {
      assert TitlesFile([title]) == title + "\n" + TitlesFile([]);
    }
  }

  /** The `with open('titles.txt', 'w')` loop: the text written, one
      `write` of the title and a newline per title, in order. */
  method WriteTitles(titles: seq<string>) returns (file: string)
    ensures file == TitlesFile(titles)
  {
    file := "";
    for i := 0 to |titles|
      invariant file == TitlesFile(titles[..i])
    {
      TitlesFileAppend(titles[..i], titles[i]);
      assert titles[..i + 1] == titles[..i] + [titles[i]];
      file := file + (titles[i] + "\n");
    }
    assert titles[..|titles|] == titles;
  }

  /** The length of the first line: the index of the first newline, or the
      whole text if there is none. */
  function LineLength(text: string): (n: nat)
    ensures n <= |text|
    ensures forall i :: 0 <= i < n ==> text[i] != '\n'
    ensures n < |text| ==> text[n] == '\n'
  {
    if text == [] || text[0] == '\n' then 0 else 1 + LineLength(text[1..])
  }

  /** Reading the file back: the newline-terminated lines of the text. */
  function Lines(text: string): seq<string>
    decreases |text|
  {
    if text == [] then []
    else
      var n := LineLength(text);
      [text[..n]] + (if n < |text| then Lines(text[n + 1..]) else [])
  }

  predicate NoNewlines(titles: seq<string>)
  {
    forall t :: t in titles ==> '\n' !in t
  }

  /** A line without a newline of its own ends at the newline after it. */
  lemma {:induction false} LineLengthOfLine(t: string, rest: string)
    requires '\n' !in t
    ensures LineLength(t + "\n" + rest) == |t|
    ensures (t + "\n" + rest)[..|t|] == t && (t + "\n" + rest)[|t| + 1..] == rest
  {
    var text := t + "\n" + rest;
    if t != [] {
      assert text[0] == t[0] && t[0] in t;
      assert text[1..] == t[1..] + "\n" + rest;
      LineLengthOfLine(t[1..], rest);
    }
  }

  /** Reading a line off the front of the text. */
  lemma LinesOfLine(t: string, rest: string)
    requires '\n' !in t
    ensures Lines(t + "\n" + rest) == [t] + Lines(rest)
  {
    LineLengthOfLine(t, rest);
  }

  /** The file gives the titles back, one per line, as long as no title
      has a newline of its own. */
  lemma {:induction false} TitlesFileRoundTrip(titles: seq<string>)
    requires NoNewlines(titles)
    ensures Lines(TitlesFile(titles)) == titles
  {
    if titles != [] {
      assert titles[0] in titles;
      LinesOfLine(titles[0], TitlesFile(titles[1..]));
      assert NoNewlines(titles[1..]) by {
        forall u | u in titles[1..] ensures '\n' !in u {
          assert u in titles;
        }
      }
      TitlesFileRoundTrip(titles[1..]);
    }
  }
}
