/**
  `checkUsernames` and the top-level run: probe every word of the cleaned
  wordlist, in order, through the retrying client; a word whose response
  body carries the "profile not found" marker is available.  The
  available words are saved, one per line, when there is at least one.
*/
module Checker {
  import opened Wrappers
  import opened JsString
  import opened CodeUnitOrder
  import opened Wordlist
  import opened HttpClient

  const BaseUrl: Str := Units("https://steamcommunity.com/id/")

  /** The text of the profile page of an unknown name. */
  const Marker: Str := Units("The specified profile could not be found.")

  /** The request for one word: a GET of the base URL followed by the word, not URL-encoded. */
  function ProbeRequest(word: Str): (req: HttpRequest)
    ensures req.verb == Units("GET") && req.data.None? && req.headers.None?
    ensures BaseUrl <= req.url && req.url[|BaseUrl|..] == word
  {
    HttpRequest(Units("GET"), BaseUrl + word, None, None)
  }

  /** What `httpClient.request('GET', url)` hands back for one word. */
  function Probe(word: Str, script: seq<Attempt>): (f: Fetch)
    ensures f.Delivered? ==> f.reply.status < 400
    ensures f.Exhausted? <==> forall k | 0 <= k < |script| :: RateLimited(script[k])
  {
    Request(ProbeRequest(word), script).fetch
  }

  /** The response body, when there is a response. */
  function Body(f: Fetch): Option<Str>
  {
    if f.Delivered? then Some(f.reply.data) else None
  }

  /** A response whose body includes the marker: the name is free. */
  predicate MarksAvailable(body: Option<Str>)
    ensures MarksAvailable(body) <==> body.Some? && exists i: nat :: OccursAt(body.value, Marker, i)
  {
    match body
    case None => false
    case Some(text) => IncludesIffOccurs(text, Marker); Includes(text, Marker)
  }

  /** One console status line: green when the word is available, red when it is not. */
  datatype Status = Status(word: Str, available: bool)

  // ---------------------------------------------------------------------
  // The loop's specification
  // ---------------------------------------------------------------------

  /** The available words: those whose response body marks them available, in order. */
  function Filter(words: seq<Str>, bodies: seq<Option<Str>>): (r: seq<Str>)
    requires |bodies| == |words|
    ensures |r| <= |words|
    ensures forall w | w in r :: w in words
  {
    if |words| == 0 then []
    else
      var n := |words| - 1;
      var r := Filter(words[..n], bodies[..n]);
      assert forall w | w in words[..n] :: w in words;
      r + if MarksAvailable(bodies[n]) then [words[n]] else []
  }

  /** The status lines: one for each word that got a response, in order. */
  function StatusLines(words: seq<Str>, bodies: seq<Option<Str>>): (r: seq<Status>)
    requires |bodies| == |words|
    ensures |r| <= |words|
    ensures forall s | s in r :: s.word in words
  {
    if |words| == 0 then []
    else
      var n := |words| - 1;
      assert forall w | w in words[..n] :: w in words;
      StatusLines(words[..n], bodies[..n])
        + if bodies[n].Some? then [Status(words[n], MarksAvailable(bodies[n]))] else []
  }

  /** The indices at which `flags` holds, in increasing order. */
  function Where(flags: seq<bool>): (idx: seq<nat>)
    ensures forall a, b | 0 <= a < b < |idx| :: idx[a] < idx[b]
    ensures forall k | 0 <= k < |idx| :: idx[k] < |flags| && flags[idx[k]]
    ensures forall i: nat | i < |flags| && flags[i] :: i in idx
  {
    if |flags| == 0 then []
    else
      var n := |flags| - 1;
      var front := Where(flags[..n]);
      assert forall i: nat | i < n :: flags[..n][i] == flags[i];
      front + if flags[n] then [n] else []
  }

  /** The elements of `xs` at the given indices. */
  function Pick<T>(xs: seq<T>, idx: seq<nat>): seq<T>
    requires forall k | 0 <= k < |idx| :: idx[k] < |xs|
  {
    seq(|idx|, k requires 0 <= k < |idx| => xs[idx[k]])
  }

  function MarkedFlags(bodies: seq<Option<Str>>): seq<bool>
  {
    seq(|bodies|, i requires 0 <= i < |bodies| => MarksAvailable(bodies[i]))
  }

  function PresentFlags(bodies: seq<Option<Str>>): seq<bool>
  {
    seq(|bodies|, i requires 0 <= i < |bodies| => bodies[i].Some?)
  }

  lemma PickExtend<T>(xs: seq<T>, idx: seq<nat>, n: nat)
    requires n < |xs| && forall k | 0 <= k < |idx| :: idx[k] < n
    ensures Pick(xs, idx + [n]) == Pick(xs[..n], idx) + [xs[n]]
  {
  }

  /**
    The available list is exactly the words at the indices whose response
    marks them available, kept in wordlist order: a subsequence of the
    wordlist, with nothing added and nothing reordered.
  */
  lemma {:induction false} FilterPicksMarked(words: seq<Str>, bodies: seq<Option<Str>>)
    requires |bodies| == |words|
    ensures Filter(words, bodies) == Pick(words, Where(MarkedFlags(bodies)))
  {
    if |words| > 0 {
      var n := |words| - 1;
      FilterPicksMarked(words[..n], bodies[..n]);
      assert MarkedFlags(bodies)[..n] == MarkedFlags(bodies[..n]);
      var idx := Where(MarkedFlags(bodies[..n]));
      if MarksAvailable(bodies[n]) {
        PickExtend(words, idx, n);
      }
    }
  }

  /** The verdict every word would get if it had a response. */
  function Verdicts(words: seq<Str>, bodies: seq<Option<Str>>): seq<Status>
    requires |bodies| == |words|
  {
    seq(|words|, i requires 0 <= i < |words| => Status(words[i], MarksAvailable(bodies[i])))
  }

  /**
    A status line is printed for exactly the words that got a response, in
    wordlist order, with the verdict of the marker test; a word without a
    response is neither reported nor saved.
  */
  lemma {:induction false} StatusLinesPickPresent(words: seq<Str>, bodies: seq<Option<Str>>)
    requires |bodies| == |words|
    ensures StatusLines(words, bodies) == Pick(Verdicts(words, bodies), Where(PresentFlags(bodies)))
  {
    if |words| > 0 {
      var n := |words| - 1;
      StatusLinesPickPresent(words[..n], bodies[..n]);
      assert PresentFlags(bodies)[..n] == PresentFlags(bodies[..n]);
      var verdicts := Verdicts(words, bodies);
      assert verdicts[..n] == Verdicts(words[..n], bodies[..n]);
      var idx := Where(PresentFlags(bodies[..n]));
      if bodies[n].Some? {
        PickExtend(verdicts, idx, n);
      }
    }
  }

  /** Picking at increasing indices from an ascending list gives an ascending list. */
  lemma PickAscending(xs: seq<Str>, idx: seq<nat>)
    requires Ascending(xs)
    requires forall k | 0 <= k < |idx| :: idx[k] < |xs|
    requires forall a, b | 0 <= a < b < |idx| :: idx[a] < idx[b]
    ensures Ascending(Pick(xs, idx))
  {
  }

  // ---------------------------------------------------------------------
  // The loop
  // ---------------------------------------------------------------------

  /** How a run ends. */
  datatype Ending =
    | Saved(text: Str)  // `available_words.txt` is written with this text
    | NothingSaved      // no word was available: no file is written
    | Aborted(at: nat)  // the request for this word threw: the run dies
    | Hung(at: nat)     // the request for this word is still retrying 429s

  datatype Run = Run(statuses: seq<Status>, available: seq<Str>, ending: Ending)

  /** A call to `request` that never returns a value to the loop. */
  predicate Fatal(f: Fetch)
  {
    f.Crashed? || f.Exhausted?
  }

  /** The fetch for every word, assuming the run got that far. */
  function Probes(wordlist: seq<Str>, scripts: seq<seq<Attempt>>): seq<Fetch>
    requires |scripts| == |wordlist|
  {
    seq(|wordlist|, i requires 0 <= i < |wordlist| => Probe(wordlist[i], scripts[i]))
  }

  function Bodies(fetches: seq<Fetch>): seq<Option<Str>>
  {
    seq(|fetches|, i requires 0 <= i < |fetches| => Body(fetches[i]))
  }

  /** Where the run stops: the first fatal fetch, or the end of the list. */
  function FirstFatal(fetches: seq<Fetch>): (n: nat)
    ensures n <= |fetches|
    ensures forall k | 0 <= k < n :: !Fatal(fetches[k])
    ensures n < |fetches| ==> Fatal(fetches[n])
  {
    if |fetches| == 0 || Fatal(fetches[0]) then 0
    else
      var n := FirstFatal(fetches[1..]);
      assert forall k | 1 <= k < n + 1 :: fetches[k] == fetches[1..][k - 1];
      1 + n
  }

  /** What the loop and the final write produce for a wordlist and the scripted network. */
  function Outcome(wordlist: seq<Str>, scripts: seq<seq<Attempt>>): (run: Run)
    requires |scripts| == |wordlist|
    ensures forall w | w in run.available :: w in wordlist
    ensures run.ending.Saved? ==> run.available != []
    ensures run.ending.Saved? ==> run.ending.text == Join(run.available)
  {
    var fetches := Probes(wordlist, scripts);
    var n := FirstFatal(fetches);
    var bodies := Bodies(fetches)[..n];
    var available := Filter(wordlist[..n], bodies);
    Run(StatusLines(wordlist[..n], bodies), available,
        if n < |wordlist| then (if fetches[n].Crashed? then Aborted(n) else Hung(n))
        else if |available| > 0 then Saved(Join(available))
        else NothingSaved)
  }

  /**
    The run stops at the first word whose request throws (`Aborted`) or
    never stops retrying (`Hung`); when no request is fatal it saves
    exactly when some word is available.
  */
  lemma OutcomeStopsAtFirstFatal(wordlist: seq<Str>, scripts: seq<seq<Attempt>>)
    requires |scripts| == |wordlist|
    ensures var run := Outcome(wordlist, scripts);
      run.ending.Aborted? || run.ending.Hung? ==>
        var n := run.ending.at;
        && n < |wordlist|
        && (run.ending.Aborted? <==> Probe(wordlist[n], scripts[n]).Crashed?)
        && Fatal(Probe(wordlist[n], scripts[n]))
        && forall k | 0 <= k < n :: !Fatal(Probe(wordlist[k], scripts[k]))
    ensures var run := Outcome(wordlist, scripts);
      run.ending.Saved? || run.ending.NothingSaved? ==>
        && (forall k | 0 <= k < |wordlist| :: !Fatal(Probe(wordlist[k], scripts[k])))
        && (run.ending.Saved? <==> run.available != [])
  {
    var fetches := Probes(wordlist, scripts);
    var n := FirstFatal(fetches);
    assert forall k | 0 <= k < |wordlist| :: fetches[k] == Probe(wordlist[k], scripts[k]);
  }

  /**
    `checkUsernames`: for each word in order, request its profile; skip it
    when there is no response, add it to the available list when the body
    carries the marker; finally save the list, newline-joined, if it is
    not empty.
  */
  method CheckUsernames(wordlist: seq<Str>, scripts: seq<seq<Attempt>>) returns (run: Run)
    requires |scripts| == |wordlist|
    ensures run == Outcome(wordlist, scripts)
  {
    var statuses: seq<Status> := [];
    var available: seq<Str> := [];
    var i := 0;
    while i < |wordlist|
      invariant i <= |wordlist|
      invariant Upto(wordlist, scripts, i, statuses, available)
    {
      var word := wordlist[i];
      var response := Probe(word, scripts[i]);
      if response.Crashed? || response.Exhausted? {
        OutcomeStopsAt(wordlist, scripts, i, statuses, available);
        var ending := if response.Crashed? then Aborted(i) else Hung(i);
        return Run(statuses, available, ending);
      }
      StepLines(wordlist, scripts, i, statuses, available);
      if response.Nothing? {
        i := i + 1;
        continue;
      }
      if Includes(response.reply.data, Marker) {
        statuses := statuses + [Status(word, true)];
        available := available + [word];
      } else {
        statuses := statuses + [Status(word, false)];
      }
      i := i + 1;
    }
    OutcomeStopsAt(wordlist, scripts, i, statuses, available);
    var ending := if |available| > 0 then Saved(Join(available)) else NothingSaved;
    run := Run(statuses, available, ending);
  }

  /**
    The loop's state after the first `i` words: none of their requests was
    fatal, and the two lists are those the specification gives for them.
  */
  ghost predicate Upto(wordlist: seq<Str>, scripts: seq<seq<Attempt>>, i: nat,
                       statuses: seq<Status>, available: seq<Str>)
    requires |scripts| == |wordlist|
  {
    && i <= |wordlist|
    && (forall k | 0 <= k < i :: !Fatal(Probe(wordlist[k], scripts[k])))
    && statuses == StatusLines(wordlist[..i], Bodies(Probes(wordlist, scripts))[..i])
    && available == Filter(wordlist[..i], Bodies(Probes(wordlist, scripts))[..i])
  }

  /** When the first fatal request is at `i`, the outcome is made of the words before it. */
  lemma OutcomeStopsAt(wordlist: seq<Str>, scripts: seq<seq<Attempt>>, i: nat,
                       statuses: seq<Status>, available: seq<Str>)
    requires |scripts| == |wordlist| && Upto(wordlist, scripts, i, statuses, available)
    requires i < |wordlist| ==> Fatal(Probe(wordlist[i], scripts[i]))
    ensures Outcome(wordlist, scripts) == Run(statuses, available,
      if i < |wordlist| then (if Probe(wordlist[i], scripts[i]).Crashed? then Aborted(i) else Hung(i))
      else if |available| > 0 then Saved(Join(available))
      else NothingSaved)
  {
    assert forall k | 0 <= k < |wordlist| :: Probes(wordlist, scripts)[k] == Probe(wordlist[k], scripts[k]);
    assert FirstFatal(Probes(wordlist, scripts)) == i;
  }

  /** One more word that got an answer: the lists grow by what its response contributes. */
  lemma StepLines(wordlist: seq<Str>, scripts: seq<seq<Attempt>>, i: nat,
                  statuses: seq<Status>, available: seq<Str>)
    requires |scripts| == |wordlist| && i < |wordlist| && Upto(wordlist, scripts, i, statuses, available)
    requires !Fatal(Probe(wordlist[i], scripts[i]))
    ensures var f := Probe(wordlist[i], scripts[i]);
      var marked := f.Delivered? && Includes(f.reply.data, Marker);
      Upto(wordlist, scripts, i + 1,
        if f.Delivered? then statuses + [Status(wordlist[i], marked)] else statuses,
        if marked then available + [wordlist[i]] else available)
  {
    var bodies := Bodies(Probes(wordlist, scripts));
    assert wordlist[..i + 1][..i] == wordlist[..i] && bodies[..i + 1][..i] == bodies[..i];
    assert bodies[i] == Body(Probe(wordlist[i], scripts[i]));
  }

  /**
    The top level: load the wordlist and, when it is not empty, check it.
    The wordlist is loaded once; `checkUsernames` loads it a second time
    from the same file, which the model takes to be unchanged.
  */
  method RunChecker(file: Option<Str>, scripts: seq<seq<Attempt>>) returns (run: Option<Run>)
    requires |scripts| == |CleanWordlist(file)|
    ensures file.None? ==> run.None?
    ensures file.Some? ==> run == Some(Outcome(CleanWordlist(file), scripts))
  {
    var wordlist := CleanWordlist(file);
    if |wordlist| > 0 {
      var r := CheckUsernames(wordlist, scripts);
      run := Some(r);
    } else {
      CleanWordlistNonEmpty(if file.Some? then file.value else []);
      run := None;
    }
  }

  /** The available words keep the order of an ascending wordlist. */
  lemma FilterAscending(words: seq<Str>, bodies: seq<Option<Str>>)
    requires |bodies| == |words| && Ascending(words)
    ensures Ascending(Filter(words, bodies))
  {
    FilterPicksMarked(words, bodies);
    PickAscending(words, Where(MarkedFlags(bodies)));
  }

  /**
    For a wordlist in ascending order without line feeds in its words, the
    available words are in ascending order too, and the saved file lists
    them: splitting it on line feeds gives the list back.
  */
  lemma SavedTextListsAvailable(wordlist: seq<Str>, scripts: seq<seq<Attempt>>)
    requires |scripts| == |wordlist| && Ascending(wordlist)
    requires forall k | 0 <= k < |wordlist| :: Newline !in wordlist[k]
    ensures var run := Outcome(wordlist, scripts);
      && Ascending(run.available)
      && (run.ending.Saved? ==> |run.available| >= 1 && Split(run.ending.text) == run.available)
      && (run.ending.NothingSaved? ==> run.available == [])
  {
    var run := Outcome(wordlist, scripts);
    var fetches := Probes(wordlist, scripts);
    var n := FirstFatal(fetches);
    var bodies := Bodies(fetches)[..n];
    assert run.available == Filter(wordlist[..n], bodies);
    FilterAscending(wordlist[..n], bodies);
    forall k | 0 <= k < |run.available| ensures Newline !in run.available[k] {
      assert run.available[k] in wordlist[..n];
      var j :| 0 <= j < n && wordlist[..n][j] == run.available[k];
      assert wordlist[j] == run.available[k];
    }
    if run.ending.Saved? {
      SplitJoin(run.available);
    }
  }

  /** What holds of the saved file for a wordlist loaded from a file. */
  lemma SavedFileListsAvailable(file: Option<Str>, scripts: seq<seq<Attempt>>)
    requires |scripts| == |CleanWordlist(file)|
    ensures var run := Outcome(CleanWordlist(file), scripts);
      && Ascending(run.available)
      && (run.ending.Saved? ==> |run.available| >= 1 && Split(run.ending.text) == run.available)
      && (run.ending.NothingSaved? ==> run.available == [])
  {
    var wordlist := CleanWordlist(file);
    forall k | 0 <= k < |wordlist| ensures Newline !in wordlist[k] {
      CleanWordsAreLines(file, wordlist[k]);
    }
    SavedTextListsAvailable(wordlist, scripts);
  }

  // ---------------------------------------------------------------------
  // Console colours
  // ---------------------------------------------------------------------

  /** `greenText`: the text between the ANSI codes ESC[32m and ESC[0m. */
  function GreenText(text: Str): (r: Str)
    ensures |r| == |text| + 9 && r[5..|r| - 4] == text
    ensures r[..5] == [0x1B, 0x5B, 0x33, 0x32, 0x6D] && r[|r| - 4..] == [0x1B, 0x5B, 0x30, 0x6D]
    ensures r[3] == 0x32
  {
    [0x1B, 0x5B, 0x33, 0x32, 0x6D] + text + [0x1B, 0x5B, 0x30, 0x6D]
  }

  /** `redText`: the text between the ANSI codes ESC[31m and ESC[0m. */
  function RedText(text: Str): (r: Str)
    ensures |r| == |text| + 9 && r[5..|r| - 4] == text
    ensures r[..5] == [0x1B, 0x5B, 0x33, 0x31, 0x6D] && r[|r| - 4..] == [0x1B, 0x5B, 0x30, 0x6D]
    ensures r[3] == 0x31
  {
    [0x1B, 0x5B, 0x33, 0x31, 0x6D] + text + [0x1B, 0x5B, 0x30, 0x6D]
  }

  /** The console line for a classified word. */
  function StatusText(s: Status): (r: Str)
    ensures |r| > 12 && r[12] == (if s.available then 0x32 else 0x31)
    ensures r[|r| - 1] == 0x21
  {
    Units("Username ")
      + (if s.available then GreenText(s.word + Units(" is available"))
         else RedText(s.word + Units(" is not available")))
      + Units("!")
  }

  /** The colour of a status line tells the verdict: green and red lines never coincide. */
  lemma ColourShowsVerdict(s: Status, t: Status)
    requires StatusText(s) == StatusText(t)
    ensures s.available == t.available
  {
    var prefix := Units("Username ");
    assert |prefix| == 9;
    assert StatusText(s)[12] == (if s.available then 0x32 else 0x31);
    assert StatusText(t)[12] == (if t.available then 0x32 else 0x31);
  }
}
