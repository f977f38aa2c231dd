/** The document records of scraper.py and the rule that decides, section by
    section, which of them the two scraping loops emit. Throughout, `clean` is
    the text cleaner the loops apply to a container's text (clean_text, which
    TextClean.CleanText models). */
module DocRecords {

  /** The two documentation sites; SourceId gives the value of a record's "source" key. */
  datatype Site = React | AwsLambda

  function SourceId(site: Site): string
  {
    match site
    case React => "react"
    case AwsLambda => "aws_lambda"
  }

  /** One output dictionary: "title", "source", "url" and "sections". */
  datatype DocRecord = DocRecord(title: string, source: string, url: string, sections: seq<string>)

  /** What the browser yielded for one configured section. */
  datatype SectionOutcome =
    /** The link was not found, the wait timed out, or some other exception was
        raised before the record could be appended: the section is skipped. */
    | SectionFailed
    /** The page was captured but holds no content container (no `<article>` on
        the React site, no `div.awsdocs-container` on the AWS site). */
    | ContainerMissing
    /** The container's extracted text and the browser's URL at that moment. */
    | ContainerFound(text: string, url: string)

  /** The React sections, followed by link text (scraper.py:60-66). */
  const ReactSections: seq<string> :=
    ["Installation", "Describing the UI", "Adding Interactivity", "Managing State", "Escape Hatches"]

  /** The AWS Lambda sections as (title, XPath of the link) pairs (scraper.py:102-108). */
  const AwsSections: seq<(string, string)> :=
    [("What is AWS Lambda?", "//a[@href='getting-started.html']"),
     ("Example apps", "//a[@href='example-apps.html']"),
     ("Building with TypeScript", "//a[@href='lambda-typescript.html']"),
     ("Integrating other services", "//a[@href='lambda-services.html']"),
     ("Code examples", "//a[@href='service_code_examples.html']")]

  function Titles(pairs: seq<(string, string)>): (r: seq<string>)
    ensures |r| == |pairs|
    ensures forall i :: 0 <= i < |pairs| ==> r[i] == pairs[i].0
  {
    if pairs == [] then [] else [pairs[0].0] + Titles(pairs[1..])
  }

  predicate Distinct(titles: seq<string>)
  {
    forall i, j :: 0 <= i < j < |titles| ==> titles[i] != titles[j]
  }

  /** Whether a section with this outcome yields a record: on the React site
      whenever the article exists (scraper.py:75-82), on the AWS site only when
      the container exists and its cleaned text is not empty (scraper.py:125-135). */
  predicate Emits(site: Site, clean: string -> string, o: SectionOutcome)
  {
    o.ContainerFound? && (site == React || clean(o.text) != "")
  }

  /** The record built for a section whose container was found. */
  function RecordOf(site: Site, clean: string -> string, title: string, o: SectionOutcome): DocRecord
    requires o.ContainerFound?
  {
    DocRecord(title, SourceId(site), o.url, [clean(o.text)])
  }

  /** The records the loop over `titles` appends, given each section's outcome. */
  function SectionRecords(site: Site, clean: string -> string, titles: seq<string>, outcomes: seq<SectionOutcome>): (r: seq<DocRecord>)
    requires |titles| == |outcomes|
    ensures |r| <= |outcomes|
    decreases |outcomes|
  {
    if outcomes == [] then []
    else
      var n := |outcomes| - 1;
      SectionRecords(site, clean, titles[..n], outcomes[..n])
        + (if Emits(site, clean, outcomes[n]) then [RecordOf(site, clean, titles[n], outcomes[n])] else [])
  }

  /** The list a scrape_* function returns: nothing when loading the site's root
      page raised (the outer handler), else the loop's records. */
  function SiteRecords(site: Site, clean: string -> string, rootLoaded: bool, titles: seq<string>, outcomes: seq<SectionOutcome>): seq<DocRecord>
    requires |titles| == |outcomes|
  {
    if rootLoaded then SectionRecords(site, clean, titles, outcomes) else []
  }

  /** How many sections yield a record. */
  function CountEmitted(site: Site, clean: string -> string, outcomes: seq<SectionOutcome>): nat
  {
    if outcomes == [] then 0
    else CountEmitted(site, clean, outcomes[..|outcomes| - 1]) + (if Emits(site, clean, outcomes[|outcomes| - 1]) then 1 else 0)
  }

  /** Every record carries the site's source id, one section taken from the
      section list, and (on the AWS site) that section's text is not empty. */
  lemma {:induction false} SectionRecordsShape(site: Site, clean: string -> string, titles: seq<string>, outcomes: seq<SectionOutcome>)
    requires |titles| == |outcomes|
    ensures forall d :: d in SectionRecords(site, clean, titles, outcomes) ==>
      (d.source == SourceId(site) && |d.sections| == 1 && d.title in titles
       && (site == AwsLambda ==> d.sections[0] != ""))
    decreases |outcomes|
  {
    if outcomes != [] {
      var n := |outcomes| - 1;
      SectionRecordsShape(site, clean, titles[..n], outcomes[..n]);
      forall t | t in titles[..n] ensures t in titles { }
    }
  }

  /** The records are exactly the emitting sections, in configured order: there
      is a strictly increasing choice of section indices `idx`, record k is the
      record of section idx[k], and a section index is chosen exactly when its
      outcome emits. */
  lemma {:induction false} SectionRecordsSelect(site: Site, clean: string -> string, titles: seq<string>, outcomes: seq<SectionOutcome>)
    returns (idx: seq<nat>)
    requires |titles| == |outcomes|
    ensures |idx| == |SectionRecords(site, clean, titles, outcomes)|
    ensures forall k :: 0 <= k < |idx| ==>
      (idx[k] < |outcomes| && Emits(site, clean, outcomes[idx[k]])
       && SectionRecords(site, clean, titles, outcomes)[k] == RecordOf(site, clean, titles[idx[k]], outcomes[idx[k]]))
    ensures forall k, l :: 0 <= k < l < |idx| ==> idx[k] < idx[l]
    ensures forall i :: 0 <= i < |outcomes| ==> (Emits(site, clean, outcomes[i]) <==> i in idx)
    decreases |outcomes|
  {
    if outcomes == [] {
      idx := [];
    } else {
      var n := |outcomes| - 1;
      var prev := SectionRecordsSelect(site, clean, titles[..n], outcomes[..n]);
      var r := SectionRecords(site, clean, titles, outcomes);
      var before := SectionRecords(site, clean, titles[..n], outcomes[..n]);
      assert r[..|before|] == before;
      forall k | 0 <= k < |prev|
        ensures prev[k] < n && outcomes[prev[k]] == outcomes[..n][prev[k]] && titles[prev[k]] == titles[..n][prev[k]]
      {
      }
      forall i | 0 <= i < n ensures outcomes[i] == outcomes[..n][i] { }
      if Emits(site, clean, outcomes[n]) {
        idx := prev + [n];
        assert r == before + [RecordOf(site, clean, titles[n], outcomes[n])];
      } else {
        idx := prev;
        assert r == before;
      }
    }
  }

  /** Exactly CountEmitted records come out. */
  lemma {:induction false} SectionRecordsCount(site: Site, clean: string -> string, titles: seq<string>, outcomes: seq<SectionOutcome>)
    requires |titles| == |outcomes|
    ensures |SectionRecords(site, clean, titles, outcomes)| == CountEmitted(site, clean, outcomes)
    decreases |outcomes|
  {
    if outcomes != [] {
      var n := |outcomes| - 1;
      SectionRecordsCount(site, clean, titles[..n], outcomes[..n]);
    }
  }

  /** With distinct titles, a record titled after section i is emitted exactly
      when section i's outcome emits. */
  lemma EmittedExactlyWhen(site: Site, clean: string -> string, titles: seq<string>, outcomes: seq<SectionOutcome>, i: nat)
    requires |titles| == |outcomes| && Distinct(titles) && i < |titles|
    ensures (exists d :: d in SectionRecords(site, clean, titles, outcomes) && d.title == titles[i])
      <==> Emits(site, clean, outcomes[i])
  {
    var r := SectionRecords(site, clean, titles, outcomes);
    var idx := SectionRecordsSelect(site, clean, titles, outcomes);
    if Emits(site, clean, outcomes[i]) {
      var k :| 0 <= k < |idx| && idx[k] == i;
      assert r[k] in r && r[k].title == titles[i];
    }
    if d :| d in r && d.title == titles[i] {
      var k :| 0 <= k < |r| && r[k] == d;
      assert titles[idx[k]] == titles[i];
      assert idx[k] == i;
    }
  }

  /** When every section emits, the output has one record per section, with
      the configured titles in the configured order. */
  lemma {:induction false} AllSectionsEmit(site: Site, clean: string -> string, titles: seq<string>, outcomes: seq<SectionOutcome>)
    requires |titles| == |outcomes|
    requires forall i :: 0 <= i < |outcomes| ==> Emits(site, clean, outcomes[i])
    ensures |SectionRecords(site, clean, titles, outcomes)| == |titles|
    ensures forall k :: 0 <= k < |titles| ==>
      Emits(site, clean, outcomes[k])
      && SectionRecords(site, clean, titles, outcomes)[k] == RecordOf(site, clean, titles[k], outcomes[k])
    decreases |outcomes|
  {
    if outcomes != [] {
      var n := |outcomes| - 1;
      AllSectionsEmit(site, clean, titles[..n], outcomes[..n]);
      assert Emits(site, clean, outcomes[n]);
    }
  }

  /** A section whose container is missing costs exactly one record: if every
      other section emits, one record fewer than the sections comes out. */
  lemma {:induction false} OneMissingContainer(site: Site, clean: string -> string, titles: seq<string>, outcomes: seq<SectionOutcome>, missing: nat)
    requires |titles| == |outcomes| && missing < |outcomes|
    requires outcomes[missing] == ContainerMissing
    requires forall i :: 0 <= i < |outcomes| && i != missing ==> Emits(site, clean, outcomes[i])
    ensures |SectionRecords(site, clean, titles, outcomes)| == |outcomes| - 1
    decreases |outcomes|
  {
    var n := |outcomes| - 1;
    if missing == n {
      AllSectionsEmit(site, clean, titles[..n], outcomes[..n]);
    } else {
      OneMissingContainer(site, clean, titles[..n], outcomes[..n], missing);
    }
  }

  /** A container whose cleaned text is empty still yields a record on the
      React site (with an empty section), but none on the AWS site. */
  lemma EmptyTextSection(clean: string -> string, title: string, text: string, url: string)
    requires clean(text) == ""
    ensures SectionRecords(React, clean, [title], [ContainerFound(text, url)]) == [DocRecord(title, "react", url, [""])]
    ensures SectionRecords(AwsLambda, clean, [title], [ContainerFound(text, url)]) == []
  {
    assert [title][..0] == [] && [ContainerFound(text, url)][..0] == [];
  }

  /** In the combined list of main, the React records come first and the AWS
      records after them: record k is a React record exactly when k is below the
      number of React records. */
  lemma CombinedOrder(clean: string -> string,
                      reactLoaded: bool, reactTitles: seq<string>, reactOutcomes: seq<SectionOutcome>,
                      awsLoaded: bool, awsTitles: seq<string>, awsOutcomes: seq<SectionOutcome>)
    requires |reactTitles| == |reactOutcomes| && |awsTitles| == |awsOutcomes|
    ensures var react := SiteRecords(React, clean, reactLoaded, reactTitles, reactOutcomes);
            var all := react + SiteRecords(AwsLambda, clean, awsLoaded, awsTitles, awsOutcomes);
            forall k :: 0 <= k < |all| ==> all[k].source == (if k < |react| then "react" else "aws_lambda")
  {
    var react := SiteRecords(React, clean, reactLoaded, reactTitles, reactOutcomes);
    var aws := SiteRecords(AwsLambda, clean, awsLoaded, awsTitles, awsOutcomes);
    SectionRecordsShape(React, clean, reactTitles, reactOutcomes);
    SectionRecordsShape(AwsLambda, clean, awsTitles, awsOutcomes);
    var all := react + aws;
    forall k | 0 <= k < |all|
      ensures all[k].source == (if k < |react| then "react" else "aws_lambda")
    {
      if k < |react| {
        assert all[k] == react[k] && react[k] in react;
      } else {
        assert all[k] == aws[k - |react|] && aws[k - |react|] in aws;
      }
    }
  }

  /** The configured section titles of each site are distinct. */
  lemma ConfiguredTitlesDistinct()
    ensures |ReactSections| == 5 && Distinct(ReactSections)
    ensures |Titles(AwsSections)| == 5 && Distinct(Titles(AwsSections))
  {
  }
}
