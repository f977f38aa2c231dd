/** The two scraping loops and main of scraper.py, with the browser replaced
    by what each configured section yielded. */
module Scraper {
  import opened TextClean
  import opened DocRecords

  /** scrape_react_docs (scraper.py:53-93). `clean` is the text cleaner applied
      to each article's text (ScrapeAll passes clean_text); `rootLoaded` is false
      when opening the start page raised, which the outer handler turns into an
      empty list; `outcomes[i]` is what the browser yielded for ReactSections[i]. */
  method ScrapeReactDocs(clean: string -> string, rootLoaded: bool, outcomes: seq<SectionOutcome>)
    returns (reactDocs: seq<DocRecord>)
    requires |outcomes| == |ReactSections|
    ensures reactDocs == SiteRecords(React, clean, rootLoaded, ReactSections, outcomes)
    ensures |reactDocs| <= |ReactSections|
    ensures forall d :: d in reactDocs ==> d.source == "react" && |d.sections| == 1
    ensures rootLoaded ==> forall i :: 0 <= i < |ReactSections| ==>
      ((exists d :: d in reactDocs && d.title == ReactSections[i]) <==> Emits(React, clean, outcomes[i]))
  {
    reactDocs := [];
    if !rootLoaded {
      return;
    }
    var i := 0;
    while i < |ReactSections|
      invariant 0 <= i <= |ReactSections|
      invariant reactDocs == SectionRecords(React, clean, ReactSections[..i], outcomes[..i])
    {
      var section := ReactSections[i];
      match outcomes[i] {
        case ContainerFound(text, url) =>
          var content := clean(text);
          reactDocs := reactDocs + [DocRecord(section, "react", url, [content])];
        case ContainerMissing =>
        case SectionFailed =>
      }
      assert ReactSections[..i + 1][..i] == ReactSections[..i];
      assert outcomes[..i + 1][..i] == outcomes[..i];
      i := i + 1;
    }
    assert ReactSections[..i] == ReactSections && outcomes[..i] == outcomes;
    SectionRecordsShape(React, clean, ReactSections, outcomes);
    ConfiguredTitlesDistinct();
    forall i | 0 <= i < |ReactSections|
      ensures (exists d :: d in reactDocs && d.title == ReactSections[i]) <==> Emits(React, clean, outcomes[i])
    {
      EmittedExactlyWhen(React, clean, ReactSections, outcomes, i);
    }
  }

  /** scrape_aws_lambda_docs (scraper.py:95-151), with the same reading of
      `clean`, `rootLoaded` and `outcomes` over AwsSections. */
  method ScrapeAwsLambdaDocs(clean: string -> string, rootLoaded: bool, outcomes: seq<SectionOutcome>)
    returns (awsDocs: seq<DocRecord>)
    requires |outcomes| == |AwsSections|
    ensures awsDocs == SiteRecords(AwsLambda, clean, rootLoaded, Titles(AwsSections), outcomes)
    ensures |awsDocs| <= |AwsSections|
    ensures forall d :: d in awsDocs ==>
      (d.source == "aws_lambda" && |d.sections| == 1 && d.sections[0] != "")
    ensures rootLoaded ==> forall i :: 0 <= i < |AwsSections| ==>
      ((exists d :: d in awsDocs && d.title == AwsSections[i].0) <==> Emits(AwsLambda, clean, outcomes[i]))
  {
    awsDocs := [];
    if !rootLoaded {
      return;
    }
    ghost var titles := Titles(AwsSections);
    var i := 0;
    while i < |AwsSections|
      invariant 0 <= i <= |AwsSections|
      invariant awsDocs == SectionRecords(AwsLambda, clean, titles[..i], outcomes[..i])
    {
      var sectionTitle := AwsSections[i].0;
      match outcomes[i] {
        case ContainerFound(text, url) =>
          var content := clean(text);
          if content != "" {
            awsDocs := awsDocs + [DocRecord(sectionTitle, "aws_lambda", url, [content])];
          }
        case ContainerMissing =>
        case SectionFailed =>
      }
      assert titles[..i + 1][..i] == titles[..i];
      assert outcomes[..i + 1][..i] == outcomes[..i];
      i := i + 1;
    }
    assert titles[..i] == titles && outcomes[..i] == outcomes;
    SectionRecordsShape(AwsLambda, clean, titles, outcomes);
    ConfiguredTitlesDistinct();
    forall i | 0 <= i < |AwsSections|
      ensures (exists d :: d in awsDocs && d.title == AwsSections[i].0) <==> Emits(AwsLambda, clean, outcomes[i])
    {
      EmittedExactlyWhen(AwsLambda, clean, titles, outcomes, i);
    }
  }

  /** main (scraper.py:153-166) up to the list it serialises: the React
      records followed by the AWS records (line 159). */
  method ScrapeAll(nfkc: string -> string, reactLoaded: bool, reactOutcomes: seq<SectionOutcome>,
                   awsLoaded: bool, awsOutcomes: seq<SectionOutcome>)
    returns (allDocs: seq<DocRecord>)
    requires |reactOutcomes| == |ReactSections| && |awsOutcomes| == |AwsSections|
    ensures allDocs == SiteRecords(React, Cleaner(nfkc), reactLoaded, ReactSections, reactOutcomes)
                       + SiteRecords(AwsLambda, Cleaner(nfkc), awsLoaded, Titles(AwsSections), awsOutcomes)
    ensures |allDocs| <= |ReactSections| + |AwsSections|
    ensures forall k :: 0 <= k < |allDocs| ==>
      allDocs[k].source == (if k < |SiteRecords(React, Cleaner(nfkc), reactLoaded, ReactSections, reactOutcomes)| then "react" else "aws_lambda")
  {
    var reactDocs := ScrapeReactDocs(Cleaner(nfkc), reactLoaded, reactOutcomes);
    var awsDocs := ScrapeAwsLambdaDocs(Cleaner(nfkc), awsLoaded, awsOutcomes);
    allDocs := reactDocs + awsDocs;
    CombinedOrder(Cleaner(nfkc), reactLoaded, ReactSections, reactOutcomes, awsLoaded, Titles(AwsSections), awsOutcomes);
  }
}
