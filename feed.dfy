/**
 * Building the record map from an Atom feed, as the end of run.py does: the
 * feed text is split on `<entry>`, the part before the first entry must hold
 * the XML declaration and the Atom root element, and each entry fragment
 * contributes its `id`, `title`, `summary` and author names, a later entry
 * replacing an earlier one with the same `id`.
 */
module Feed {
  import opened Results
  import opened Text
  import opened Extract

  const EntrySeparator: string := "<entry>"

  /** The XML declaration and Atom root element the preamble must contain. */
  const FeedHeader: string := "<?xml version=\"1.0\" encoding=\"UTF-8\"?>\n<feed xmlns=\"http://www.w3.org/2005/Atom\">"

  /** The value stored for one entry: `dict(title=..., summary=..., authors=...)`. */
  datatype Record = Record(title: string, summary: string, authors: seq<string>)

  /**
   * `UnexpectedFormat` is the failed `assert` on the preamble; `BadEntry` is
   * the `ValueError` of a field extraction inside an entry.
   */
  datatype FeedError = UnexpectedFormat | BadEntry(cause: ExtractError)

  /** The outcome of extracting the `name` of each block, in order. */
  function NameAll(blocks: seq<string>): (r: seq<Result<string, ExtractError>>)
    ensures |r| == |blocks| && forall k :: 0 <= k < |blocks| ==> r[k] == GetAttr(blocks[k], "name")
  {
    seq(|blocks|, k requires 0 <= k < |blocks| => GetAttr(blocks[k], "name"))
  }

  /** A list comprehension over extractions, evaluated left to right: the first error ends it. */
  function Gather(results: seq<Result<string, ExtractError>>): Result<seq<string>, ExtractError>
  {
    if results == [] then Ok([])
    else
      var names :- Gather(results[..|results| - 1]);
      var name :- results[|results| - 1];
      Ok(names + [name])
  }

  /** `[get_attr(x, "name") for x in blocks]`. */
  function AuthorNames(blocks: seq<string>): Result<seq<string>, ExtractError>
  {
    Gather(NameAll(blocks))
  }

  /** The key and the record of one entry fragment, fields extracted in the order of the script. */
  function EntryOf(element: string): Result<(string, Record), ExtractError>
  {
    var id :- GetAttr(element, "id");
    var title :- GetAttr(element, "title");
    var summary :- GetAttr(element, "summary");
    var blocks :- AttrList(element, "author");
    var authors :- AuthorNames(blocks);
    Ok((id, Record(title, summary, authors)))
  }

  /** The outcome of parsing each entry fragment, in order. */
  function ParseAll(entries: seq<string>): (r: seq<Result<(string, Record), ExtractError>>)
    ensures |r| == |entries| && forall i :: 0 <= i < |entries| ==> r[i] == EntryOf(entries[i])
  {
    seq(|entries|, i requires 0 <= i < |entries| => EntryOf(entries[i]))
  }

  /**
   * The loop over the parsed fragments: each one is stored under its key, in
   * order; the first fragment that does not parse ends it.
   */
  function Collect(parsed: seq<Result<(string, Record), ExtractError>>): Result<map<string, Record>, ExtractError>
  {
    if parsed == [] then Ok(map[])
    else
      var records :- Collect(parsed[..|parsed| - 1]);
      var entry :- parsed[|parsed| - 1];
      Ok(records[entry.0 := entry.1])
  }

  /** The entry fragments: the parts of the feed text after the first `<entry>`. */
  function Entries(feed: string): seq<string> {
    Split(feed, EntrySeparator)[1..]
  }

  /** The whole record-building step on the decoded feed text. */
  function FeedRecords(feed: string): Result<map<string, Record>, FeedError>
  {
    var parts := Split(feed, EntrySeparator);
    if IndexOf(parts[0], FeedHeader).None? then Err(UnexpectedFormat)
    else
      match Collect(ParseAll(parts[1..]))
      case Err(e) => Err(BadEntry(e))
      case Ok(records) => Ok(records)
  }

  /** Once a prefix of the fragments has failed, the whole loop fails with the same error. */
  lemma {:induction false} CollectErrSticks(parsed: seq<Result<(string, Record), ExtractError>>, k: nat)
    requires k <= |parsed| && Collect(parsed[..k]).Err?
    ensures Collect(parsed) == Collect(parsed[..k])
    decreases |parsed| - k
  {
    if k < |parsed| {
      var next := parsed[..k + 1];
      assert next[..|next| - 1] == parsed[..k];
      CollectErrSticks(parsed, k + 1);
    } else {
      assert parsed[..k] == parsed;
    }
  }

  /** Once a prefix of the extractions has failed, the whole comprehension fails with the same error. */
  lemma {:induction false} GatherErrSticks(results: seq<Result<string, ExtractError>>, k: nat)
    requires k <= |results| && Gather(results[..k]).Err?
    ensures Gather(results) == Gather(results[..k])
    decreases |results| - k
  {
    if k < |results| {
      var next := results[..k + 1];
      assert next[..|next| - 1] == results[..k];
      GatherErrSticks(results, k + 1);
    } else {
      assert results[..k] == results;
    }
  }

  /** The author names of one entry: the comprehension as a loop. */
  method ReadAuthors(blocks: seq<string>) returns (r: Result<seq<string>, ExtractError>)
    ensures r == AuthorNames(blocks)
    ensures r.Ok? <==> forall k :: 0 <= k < |blocks| ==> GetAttr(blocks[k], "name").Ok?
    ensures r.Ok? ==> |r.value| == |blocks| && forall k :: 0 <= k < |blocks| ==> GetAttr(blocks[k], "name") == Ok(r.value[k])
  {
    AuthorNamesOk(blocks);
    ghost var results := NameAll(blocks);
    var names: seq<string> := [];
    for k := 0 to |blocks|
      invariant Gather(results[..k]) == Ok(names)
    {
      var name := GetAttr(blocks[k], "name");
      ghost var next := results[..k + 1];
      assert next[..|next| - 1] == results[..k];
      if name.Err? {
        GatherErrSticks(results, k + 1);
        return Err(name.error);
      }
      names := names + [name.value];
    }
    assert results[..|results|] == results;
    r := Ok(names);
  }

  /** The comprehension succeeds exactly when every extraction does, and then holds their values in order. */
  lemma {:induction false} GatherOk(results: seq<Result<string, ExtractError>>)
    ensures Gather(results).Ok? <==> forall k :: 0 <= k < |results| ==> results[k].Ok?
    ensures Gather(results).Ok? ==>
      |Gather(results).value| == |results| &&
      forall k :: 0 <= k < |results| ==> results[k] == Ok(Gather(results).value[k])
    decreases |results|
  {
    if results != [] {
      var init := results[..|results| - 1];
      GatherOk(init);
      assert forall k :: 0 <= k < |init| ==> init[k] == results[k];
    }
  }

  /** A failing comprehension reports the error of its first failing extraction. */
  lemma {:induction false} GatherFirstError(results: seq<Result<string, ExtractError>>)
    requires Gather(results).Err?
    ensures exists i ::
      0 <= i < |results| && results[i] == Err(Gather(results).error) &&
      forall j :: 0 <= j < i ==> results[j].Ok?
    decreases |results|
  {
    var init := results[..|results| - 1];
    var last := |results| - 1;
    assert forall k :: 0 <= k < |init| ==> init[k] == results[k];
    if Gather(init).Err? {
      GatherFirstError(init);
      var i :| 0 <= i < |init| && init[i] == Err(Gather(init).error) && forall j :: 0 <= j < i ==> init[j].Ok?;
      assert results[i] == Err(Gather(results).error);
    } else {
      GatherOk(init);
      assert results[last] == Err(Gather(results).error);
    }
  }

  /** The author names succeed exactly when every block has a `name`, and are then one per block in order. */
  lemma AuthorNamesOk(blocks: seq<string>)
    ensures AuthorNames(blocks).Ok? <==> forall k :: 0 <= k < |blocks| ==> GetAttr(blocks[k], "name").Ok?
    ensures AuthorNames(blocks).Ok? ==>
      |AuthorNames(blocks).value| == |blocks| &&
      forall k :: 0 <= k < |blocks| ==> GetAttr(blocks[k], "name") == Ok(AuthorNames(blocks).value[k])
  {
    GatherOk(NameAll(blocks));
  }

  /** Failing author names report the error of the first block without a usable `name`. */
  lemma AuthorNamesFirstError(blocks: seq<string>)
    requires AuthorNames(blocks).Err?
    ensures exists i ::
      0 <= i < |blocks| && GetAttr(blocks[i], "name") == Err(AuthorNames(blocks).error) &&
      forall j :: 0 <= j < i ==> GetAttr(blocks[j], "name").Ok?
  {
    var results := NameAll(blocks);
    GatherFirstError(results);
    var i :| 0 <= i < |results| && results[i] == Err(Gather(results).error) && forall j :: 0 <= j < i ==> results[j].Ok?;
    assert GetAttr(blocks[i], "name") == Err(AuthorNames(blocks).error);
  }

  /** Every extraction of an entry fragment succeeds: its three fields, its `author` blocks and their names. */
  ghost predicate EntryParses(element: string) {
    GetAttr(element, "id").Ok? && GetAttr(element, "title").Ok? && GetAttr(element, "summary").Ok? &&
    AttrList(element, "author").Ok? &&
    forall k :: 0 <= k < |AttrList(element, "author").value| ==> GetAttr(AttrList(element, "author").value[k], "name").Ok?
  }

  /**
   * `key` is the fragment's `id` and `rec` holds its `title`, its `summary`
   * and, one per `author` block in order, the block's `name`.
   */
  ghost predicate EntryFields(element: string, key: string, rec: Record) {
    GetAttr(element, "id") == Ok(key) &&
    GetAttr(element, "title") == Ok(rec.title) &&
    GetAttr(element, "summary") == Ok(rec.summary) &&
    AttrList(element, "author").Ok? &&
    |rec.authors| == |AttrList(element, "author").value| &&
    forall k :: 0 <= k < |rec.authors| ==> GetAttr(AttrList(element, "author").value[k], "name") == Ok(rec.authors[k])
  }

  /** An entry fragment parses exactly when all its extractions succeed, and then holds their values. */
  lemma EntryOfFields(element: string)
    ensures EntryOf(element).Ok? <==> EntryParses(element)
    ensures EntryOf(element).Ok? ==> EntryFields(element, EntryOf(element).value.0, EntryOf(element).value.1)
  {
    var blocks := AttrList(element, "author");
    if blocks.Ok? {
      AuthorNamesOk(blocks.value);
    }
  }

  /** One pass of the record loop: the three fields, then the authors. */
  method ReadEntry(element: string) returns (r: Result<(string, Record), ExtractError>)
    ensures r == EntryOf(element)
    ensures r.Ok? <==> EntryParses(element)
    ensures r.Ok? ==> EntryFields(element, r.value.0, r.value.1)
  {
    EntryOfFields(element);
    var id :- GetAttr(element, "id");
    var title :- GetAttr(element, "title");
    var summary :- GetAttr(element, "summary");
    var blocks :- GetAttrList(element, "author");
    var authors :- ReadAuthors(blocks);
    r := Ok((id, Record(title, summary, authors)));
  }

  /**
   * The record-building step of run.py: split on `<entry>`, check the
   * preamble, then fill the map entry by entry.
   */
  method BuildRecords(feed: string) returns (r: Result<map<string, Record>, FeedError>)
    ensures r == FeedRecords(feed)
  {
    var parts := Split(feed, EntrySeparator);
    var preamble, entries := parts[0], parts[1..];
    if IndexOf(preamble, FeedHeader).None? {
      return Err(UnexpectedFormat);
    }
    ghost var parsed := ParseAll(entries);
    var records: map<string, Record> := map[];
    for k := 0 to |entries|
      invariant Collect(parsed[..k]) == Ok(records)
    {
      var entry := ReadEntry(entries[k]);
      ghost var next := parsed[..k + 1];
      assert next[..|next| - 1] == parsed[..k];
      if entry.Err? {
        CollectErrSticks(parsed, k + 1);
        return Err(BadEntry(entry.error));
      }
      records := records[entry.value.0 := entry.value.1];
    }
    assert parsed[..|parsed|] == parsed;
    r := Ok(records);
  }

  /** The loop succeeds exactly when every fragment parses. */
  lemma {:induction false} CollectOk(parsed: seq<Result<(string, Record), ExtractError>>)
    ensures Collect(parsed).Ok? <==> forall i :: 0 <= i < |parsed| ==> parsed[i].Ok?
    decreases |parsed|
  {
    if parsed != [] {
      var init := parsed[..|parsed| - 1];
      CollectOk(init);
      assert forall i :: 0 <= i < |init| ==> init[i] == parsed[i];
    }
  }

  /** Every fragment before index `i` parses. */
  ghost predicate ParsedBefore(parsed: seq<Result<(string, Record), ExtractError>>, i: int) {
    forall j :: 0 <= j < i && j < |parsed| ==> parsed[j].Ok?
  }

  /** A failing loop reports the error of the first fragment that does not parse. */
  lemma {:induction false} CollectFirstError(parsed: seq<Result<(string, Record), ExtractError>>)
    requires Collect(parsed).Err?
    ensures exists i :: 0 <= i < |parsed| && parsed[i] == Err(Collect(parsed).error) && ParsedBefore(parsed, i)
    decreases |parsed|
  {
    var init := parsed[..|parsed| - 1];
    var last := |parsed| - 1;
    assert forall i :: 0 <= i < |init| ==> init[i] == parsed[i];
    if Collect(init).Err? {
      CollectFirstError(init);
      var i :| 0 <= i < |init| && init[i] == Err(Collect(init).error) && ParsedBefore(init, i);
      assert parsed[i] == Err(Collect(parsed).error) && ParsedBefore(parsed, i);
    } else {
      CollectOk(init);
      assert parsed[last] == Err(Collect(parsed).error) && ParsedBefore(parsed, last);
    }
  }

  /** The keys of the map are exactly the keys of the fragments. */
  lemma {:induction false} CollectKeys(parsed: seq<Result<(string, Record), ExtractError>>)
    requires Collect(parsed).Ok?
    ensures forall i :: 0 <= i < |parsed| ==> parsed[i].Ok?
    ensures forall key :: key in Collect(parsed).value <==>
      exists i :: 0 <= i < |parsed| && parsed[i].value.0 == key
    decreases |parsed|
  {
    CollectOk(parsed);
    if parsed != [] {
      var init := parsed[..|parsed| - 1];
      assert forall i :: 0 <= i < |init| ==> init[i] == parsed[i];
      CollectKeys(init);
    }
  }

  /** For a repeated key, the map holds the record of the last fragment with that key. */
  lemma {:induction false} CollectLastWins(parsed: seq<Result<(string, Record), ExtractError>>, i: nat)
    requires Collect(parsed).Ok? && i < |parsed| && parsed[i].Ok?
    requires forall j :: i < j < |parsed| ==> parsed[j].Ok? && parsed[j].value.0 != parsed[i].value.0
    ensures parsed[i].value.0 in Collect(parsed).value
    ensures Collect(parsed).value[parsed[i].value.0] == parsed[i].value.1
    decreases |parsed|
  {
    var init := parsed[..|parsed| - 1];
    var last := |parsed| - 1;
    if i < last {
      assert forall j :: 0 <= j < |init| ==> init[j] == parsed[j];
      CollectLastWins(init, i);
    }
  }

  /** The key of a parsed entry fragment is its `id` element. */
  lemma EntryKey(element: string)
    ensures EntryOf(element).Ok? ==> GetAttr(element, "id") == Ok(EntryOf(element).value.0)
  {
  }

  /** The key of every parsed fragment is its `id` element. */
  lemma ParsedKeys(entries: seq<string>)
    ensures forall j :: 0 <= j < |entries| && ParseAll(entries)[j].Ok? ==>
      GetAttr(entries[j], "id") == Ok(ParseAll(entries)[j].value.0)
  {
    forall j | 0 <= j < |entries| && ParseAll(entries)[j].Ok?
      ensures GetAttr(entries[j], "id") == Ok(ParseAll(entries)[j].value.0)
    {
      EntryKey(entries[j]);
    }
  }

  /** The preamble check fails exactly when the text before the first entry lacks the header. */
  lemma FeedRecordsHeader(feed: string)
    ensures FeedRecords(feed) == Err(UnexpectedFormat) <==> !Contains(Split(feed, EntrySeparator)[0], FeedHeader)
  {
  }

  /** A feed that yields records has a good preamble, and its map is the loop's over the entry fragments. */
  lemma FeedRecordsOk(feed: string)
    requires FeedRecords(feed).Ok?
    ensures Contains(Split(feed, EntrySeparator)[0], FeedHeader)
    ensures Collect(ParseAll(Entries(feed))) == Ok(FeedRecords(feed).value)
  {
  }

  /** The keys of the loop's map are exactly the `id` values of the entry fragments. */
  lemma EntryKeys(entries: seq<string>)
    requires Collect(ParseAll(entries)).Ok?
    ensures forall key :: key in Collect(ParseAll(entries)).value <==>
      exists i :: 0 <= i < |entries| && GetAttr(entries[i], "id") == Ok(key)
  {
    var parsed := ParseAll(entries);
    CollectKeys(parsed);
    ParsedKeys(entries);
  }

  /**
   * For an `id` that no later entry fragment repeats, the loop's map holds
   * the record of that fragment: the last fragment with a given `id` wins.
   */
  lemma EntryLastWins(entries: seq<string>, i: nat)
    requires Collect(ParseAll(entries)).Ok? && i < |entries|
    requires forall j :: i < j < |entries| ==> GetAttr(entries[j], "id") != GetAttr(entries[i], "id")
    ensures EntryOf(entries[i]).Ok? && GetAttr(entries[i], "id") == Ok(EntryOf(entries[i]).value.0)
    ensures EntryOf(entries[i]).value.0 in Collect(ParseAll(entries)).value
    ensures Collect(ParseAll(entries)).value[EntryOf(entries[i]).value.0] == EntryOf(entries[i]).value.1
  {
    var parsed := ParseAll(entries);
    CollectOk(parsed);
    ParsedKeys(entries);
    CollectLastWins(parsed, i);
  }

  /** In a feed that yields records, the keys are exactly the `id` values of the entry fragments. */
  lemma FeedKeys(feed: string)
    requires FeedRecords(feed).Ok?
    ensures forall key :: key in FeedRecords(feed).value <==>
      exists i :: 0 <= i < |Entries(feed)| && GetAttr(Entries(feed)[i], "id") == Ok(key)
  {
    FeedRecordsOk(feed);
    EntryKeys(Entries(feed));
  }

  /**
   * In a feed that yields records, an entry fragment whose `id` no later
   * fragment repeats supplies the record stored under that `id`.
   */
  lemma FeedLastWins(feed: string, i: nat)
    requires FeedRecords(feed).Ok? && i < |Entries(feed)|
    requires forall j :: i < j < |Entries(feed)| ==> GetAttr(Entries(feed)[j], "id") != GetAttr(Entries(feed)[i], "id")
    ensures EntryOf(Entries(feed)[i]).Ok? && GetAttr(Entries(feed)[i], "id") == Ok(EntryOf(Entries(feed)[i]).value.0)
    ensures EntryOf(Entries(feed)[i]).value.0 in FeedRecords(feed).value
    ensures FeedRecords(feed).value[EntryOf(Entries(feed)[i]).value.0] == EntryOf(Entries(feed)[i]).value.1
  {
    FeedRecordsOk(feed);
    EntryLastWins(Entries(feed), i);
  }

  /** The loop fails with `e` exactly when some fragment fails with `e` and every earlier one parses. */
  lemma CollectErrIff(parsed: seq<Result<(string, Record), ExtractError>>, e: ExtractError)
    ensures Collect(parsed) == Err(e) <==>
      exists i :: 0 <= i < |parsed| && parsed[i] == Err(e) && ParsedBefore(parsed, i)
  {
    if Collect(parsed) == Err(e) {
      CollectFirstError(parsed);
    }
    if i :| 0 <= i < |parsed| && parsed[i] == Err(e) && ParsedBefore(parsed, i) {
      CollectOk(parsed);
      CollectFirstError(parsed);
      var i' :| 0 <= i' < |parsed| && parsed[i'] == Err(Collect(parsed).error) && ParsedBefore(parsed, i');
      assert i == i';
    }
  }

  /** The loop over the entry fragments fails with `e` exactly when the first fragment that does not parse fails with `e`. */
  lemma EntryFirstError(entries: seq<string>, e: ExtractError)
    ensures Collect(ParseAll(entries)) == Err(e) <==>
      exists i :: 0 <= i < |entries| && EntryOf(entries[i]) == Err(e) &&
        forall j :: 0 <= j < i ==> EntryOf(entries[j]).Ok?
  {
    var parsed := ParseAll(entries);
    CollectErrIff(parsed, e);
    if i :| 0 <= i < |parsed| && parsed[i] == Err(e) && ParsedBefore(parsed, i) {
      assert EntryOf(entries[i]) == Err(e) && forall j :: 0 <= j < i ==> EntryOf(entries[j]).Ok?;
    }
    if i :| 0 <= i < |entries| && EntryOf(entries[i]) == Err(e) && forall j :: 0 <= j < i ==> EntryOf(entries[j]).Ok? {
      assert parsed[i] == Err(e) && ParsedBefore(parsed, i);
    }
  }

  /**
   * A feed is rejected for an entry error `e` exactly when its preamble is
   * good and the first entry fragment that does not parse fails with `e`.
   */
  lemma FeedFirstError(feed: string, e: ExtractError)
    ensures FeedRecords(feed) == Err(BadEntry(e)) <==>
      Contains(Split(feed, EntrySeparator)[0], FeedHeader) &&
      exists i :: 0 <= i < |Entries(feed)| && EntryOf(Entries(feed)[i]) == Err(e) &&
        forall j :: 0 <= j < i ==> EntryOf(Entries(feed)[j]).Ok?
  {
    EntryFirstError(Entries(feed), e);
  }
}
