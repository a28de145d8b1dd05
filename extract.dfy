/**
 * Tag-delimited field extraction from feed markup: `get_attr` and
 * `get_attr_list` of run.py, which scan for literal `<name>` and `</name>`
 * tags instead of parsing the markup.
 */
module Extract {
  import opened Results
  import opened Text

  /** Both functions raise `ValueError`; the two variants say which tag was missing. */
  datatype ExtractError = MissingOpenTag | MissingCloseTag

  function OpenTag(name: string): string {
    "<" + name + ">"
  }

  function CloseTag(name: string): string {
    "</" + name + ">"
  }

  /** A name fit for a tag: no '<' and no '/' in it, as in every markup name. */
  ghost predicate IsTagName(name: string) {
    forall k :: 0 <= k < |name| ==> name[k] != '<' && name[k] != '/'
  }

  /**
   * `get_attr`: the text after the first `<attr>` up to the first `</attr>`,
   * the closing tag being searched from the start of the whole text.
   */
  function GetAttr(xml: string, attr: string): (r: Result<string, ExtractError>)
    ensures r == Err(MissingOpenTag) <==> !Contains(xml, OpenTag(attr))
    ensures r == Err(MissingCloseTag) <==> Contains(xml, OpenTag(attr)) && !Contains(xml, CloseTag(attr))
    ensures r.Ok? ==> exists i, j ::
      FirstAt(xml, OpenTag(attr), i) && FirstAt(xml, CloseTag(attr), j) &&
      r.value == if i + |OpenTag(attr)| <= j then xml[i + |OpenTag(attr)|..j] else ""
  {
    var open := OpenTag(attr);
    match IndexOf(xml, open)
    case None => Err(MissingOpenTag)
    case Some(i) =>
      match IndexOf(xml, CloseTag(attr))
      case None => Err(MissingCloseTag)
      case Some(j) => Ok(Slice(xml, i + |open|, j))
  }

  /**
   * One pass of the loop in `get_attr_list`: the text between the first
   * opening and the first closing tag, and what follows that closing tag.
   */
  function TakePair(s: string, attr: string): (r: Result<(string, string), ExtractError>)
  {
    var open, close := OpenTag(attr), CloseTag(attr);
    match IndexOf(s, open)
    case None => Err(MissingOpenTag)
    case Some(i) =>
      match IndexOf(s, close)
      case None => Err(MissingCloseTag)
      case Some(j) => Ok((Slice(s, i + |open|, j), s[j + |close|..]))
  }

  /**
   * A pass extracts exactly what `get_attr` extracts from the remaining text,
   * fails exactly when it does and with the same error, and keeps the text
   * after the first closing tag.
   */
  lemma TakePairAgrees(s: string, attr: string)
    ensures TakePair(s, attr).Ok? <==> GetAttr(s, attr).Ok?
    ensures TakePair(s, attr).Err? ==> TakePair(s, attr).error == GetAttr(s, attr).error
    ensures TakePair(s, attr).Ok? ==> TakePair(s, attr).value.0 == GetAttr(s, attr).value
    ensures TakePair(s, attr).Ok? ==> exists j ::
      FirstAt(s, CloseTag(attr), j) && TakePair(s, attr).value.1 == s[j + |CloseTag(attr)|..]
  {
  }

  /**
   * The loop of `get_attr_list` from a given state: `n` passes still to make
   * over the remaining text `rest`, with `found` collected so far; it stops at
   * the first pass that raises.
   */
  function ScanPairs(found: seq<string>, rest: string, attr: string, n: nat): Result<seq<string>, ExtractError>
    decreases n
  {
    if n == 0 then Ok(found)
    else
      match TakePair(rest, attr)
      case Err(e) => Err(e)
      case Ok(pair) => ScanPairs(found + [pair.0], pair.1, attr, n - 1)
  }

  /** `get_attr_list`: as many passes as there are opening tags in the original text. */
  function AttrList(xml: string, attr: string): Result<seq<string>, ExtractError>
  {
    ScanPairs([], xml, attr, Count(xml, OpenTag(attr)))
  }

  /** One pass of the scan either raises or leaves the remaining passes to the rest of the text. */
  lemma ScanPairsStep(found: seq<string>, s: string, attr: string, n: nat)
    requires n > 0
    ensures ScanPairs(found, s, attr, n) == match TakePair(s, attr)
      case Err(e) => Err(e)
      case Ok(pair) => ScanPairs(found + [pair.0], pair.1, attr, n - 1)
  {
  }

  /**
   * The loop of `get_attr_list`: each pass appends the item it found and
   * continues on the text after its closing tag; a pass that raises ends it.
   */
  method ScanLoop(xml: string, attr: string, n: nat) returns (r: Result<seq<string>, ExtractError>)
    ensures r == ScanPairs([], xml, attr, n)
  {
    var found: seq<string> := [];
    var rest := xml;
    for k := 0 to n
      invariant ScanPairs(found, rest, attr, n - k) == ScanPairs([], xml, attr, n)
    {
      var pass := TakePair(rest, attr);
      ScanPairsStep(found, rest, attr, n - k);
      if pass.Err? {
        return Err(pass.error);
      }
      found := found + [pass.value.0];
      rest := pass.value.1;
    }
    r := Ok(found);
  }

  /** `get_attr_list`: one pass per opening tag of the original text. */
  method GetAttrList(xml: string, attr: string) returns (r: Result<seq<string>, ExtractError>)
    ensures r == AttrList(xml, attr)
    ensures !Contains(xml, OpenTag(attr)) ==> r == Ok([])
    ensures r.Ok? ==> |r.value| == Count(xml, OpenTag(attr))
  {
    var n := Count(xml, OpenTag(attr));
    r := ScanLoop(xml, attr, n);
    AttrListShape(xml, attr);
  }

  /** A normal return holds one item per pass. */
  lemma {:induction false} ScanPairsLength(found: seq<string>, s: string, attr: string, n: nat)
    ensures ScanPairs(found, s, attr, n).Ok? ==> |ScanPairs(found, s, attr, n).value| == |found| + n
    decreases n
  {
    if n > 0 {
      match TakePair(s, attr)
      case Err(_) =>
      case Ok(pair) => ScanPairsLength(found + [pair.0], pair.1, attr, n - 1);
    }
  }

  /**
   * Without an opening tag the list is empty, not an error; a normal return
   * holds one item per opening tag of the original text.
   */
  lemma AttrListShape(xml: string, attr: string)
    ensures !Contains(xml, OpenTag(attr)) ==> AttrList(xml, attr) == Ok([])
    ensures AttrList(xml, attr).Ok? ==> |AttrList(xml, attr).value| == Count(xml, OpenTag(attr))
  {
    ScanPairsLength([], xml, attr, Count(xml, OpenTag(attr)));
  }

  lemma TagsAreTagShaped(attr: string)
    requires IsTagName(attr)
    ensures TagShaped(OpenTag(attr)) && TagShaped(CloseTag(attr))
  {
    var open, close := OpenTag(attr), CloseTag(attr);
    assert forall k :: 0 < k < |open| - 1 ==> open[k] == attr[k - 1];
    assert forall k :: 1 < k < |close| - 1 ==> close[k] == attr[k - 2];
  }

  /** The second character of an opening tag is never the '/' of a closing tag. */
  lemma OpenTagNoClose(attr: string, s: string)
    requires IsTagName(attr) && !Contains(s, CloseTag(attr))
    ensures !Contains(OpenTag(attr) + s, CloseTag(attr))
  {
    var open, close := OpenTag(attr), CloseTag(attr);
    var w := open + s;
    TagsAreTagShaped(attr);
    forall j ensures !OccursAt(w, close, j) {
      OccursAtChars(w, close, j);
      if 0 <= j && j + |close| <= |w| {
        if j == 0 {
          assert w[j + 1] == open[1] != close[1];
        } else if j < |open| {
          assert w[j + 0] == open[j] != close[0];
        } else {
          OccursInSuffix(open, s, close, j - |open|);
        }
      }
    }
  }

  /** A closing tag holds no opening tag. */
  lemma CloseTagNoOpen(attr: string)
    requires IsTagName(attr)
    ensures !Contains(CloseTag(attr), OpenTag(attr))
  {
    var open, close := OpenTag(attr), CloseTag(attr);
    TagsAreTagShaped(attr);
    forall j ensures !OccursAt(close, open, j) {
      OccursAtChars(close, open, j);
      if 0 <= j && j + |open| <= |close| {
        if j == 0 {
          assert close[j + 1] == '/' != open[1];
        } else {
          assert close[j + 0] != '<';
        }
      }
    }
  }

  /** Concatenated `<attr>item</attr>` pairs. */
  function Wrap(items: seq<string>, attr: string): string
  {
    if items == [] then "" else OpenTag(attr) + items[0] + CloseTag(attr) + Wrap(items[1..], attr)
  }

  /** Every item is free of both tags. */
  ghost predicate TagFree(items: seq<string>, attr: string) {
    forall k :: 0 <= k < |items| ==> !Contains(items[k], OpenTag(attr)) && !Contains(items[k], CloseTag(attr))
  }

  /** Where the tags of one wrapped item, in front of text that starts with a tag, are first found. */
  lemma WrappedIndexes(attr: string, s: string, rest: string, w: string)
    requires IsTagName(attr) && OpensWithLt(rest) && !Contains(s, CloseTag(attr))
    requires w == OpenTag(attr) + s + CloseTag(attr) + rest
    ensures IndexOf(w, OpenTag(attr)) == Some(0)
    ensures IndexOf(w, CloseTag(attr)) == Some(|OpenTag(attr)| + |s|)
  {
    var open, close := OpenTag(attr), CloseTag(attr);
    TagsAreTagShaped(attr);
    assert w == open + (s + close + rest);
    IndexOfStart(open, s + close + rest);
    OpenTagNoClose(attr, s);
    var after := close + rest;
    assert w == (open + s) + after;
    IndexOfStart(close, rest);
    IndexOfAfter(open + s, after, close);
  }

  /** One wrapped item in front of text that starts with a tag is taken apart exactly. */
  lemma TakePairWrapped(attr: string, s: string, rest: string)
    requires IsTagName(attr) && OpensWithLt(rest) && !Contains(s, CloseTag(attr))
    ensures TakePair(OpenTag(attr) + s + CloseTag(attr) + rest, attr) == Ok((s, rest))
  {
    var open, close := OpenTag(attr), CloseTag(attr);
    var w := open + s + close + rest;
    WrappedIndexes(attr, s, rest, w);
    assert w[|open|..|open| + |s|] == s;
    assert w[|open| + |s| + |close|..] == rest;
  }

  /** One wrapped item free of both tags adds one to the count of opening tags. */
  lemma CountWrapped(attr: string, s: string, rest: string, w: string)
    requires IsTagName(attr) && OpensWithLt(rest)
    requires !Contains(s, OpenTag(attr)) && !Contains(s, CloseTag(attr))
    requires w == OpenTag(attr) + s + CloseTag(attr) + rest
    ensures Count(w, OpenTag(attr)) == 1 + Count(rest, OpenTag(attr))
  {
    var open, close := OpenTag(attr), CloseTag(attr);
    WrappedIndexes(attr, s, rest, w);
    TagsAreTagShaped(attr);
    CloseTagNoOpen(attr);
    NotContainsConcat(s, close, open);
    assert w == open + (s + close) + rest;
    CountFromAfter(open, s + close, rest, open);
  }

  lemma WrapOpensWithLt(items: seq<string>, attr: string)
    ensures OpensWithLt(Wrap(items, attr))
  {
    if items != [] {
      var w := Wrap(items, attr);
      assert w[0] == OpenTag(attr)[0];
    }
  }

  /** Wrapped items are counted once each. */
  lemma {:induction false} CountWrap(items: seq<string>, attr: string)
    requires IsTagName(attr) && TagFree(items, attr)
    ensures Count(Wrap(items, attr), OpenTag(attr)) == |items|
  {
    if items != [] {
      var rest := Wrap(items[1..], attr);
      WrapOpensWithLt(items[1..], attr);
      CountWrapped(attr, items[0], rest, Wrap(items, attr));
      CountWrap(items[1..], attr);
    }
  }

  lemma ScanWrapStep(found: seq<string>, items: seq<string>, w: string, rest: string, attr: string)
    requires |items| > 0 && TakePair(w, attr) == Ok((items[0], rest))
    requires ScanPairs(found + [items[0]], rest, attr, |items| - 1) == Ok((found + [items[0]]) + items[1..])
    ensures ScanPairs(found, w, attr, |items|) == Ok(found + items)
  {
    assert (found + [items[0]]) + items[1..] == found + items;
  }

  lemma WrapHead(items: seq<string>, attr: string)
    requires IsTagName(attr) && TagFree(items, attr) && |items| > 0
    ensures TakePair(Wrap(items, attr), attr) == Ok((items[0], Wrap(items[1..], attr)))
  {
    var rest := Wrap(items[1..], attr);
    assert Wrap(items, attr) == OpenTag(attr) + items[0] + CloseTag(attr) + rest;
    WrapOpensWithLt(items[1..], attr);
    TakePairWrapped(attr, items[0], rest);
  }

  lemma {:induction false} ScanWrap(found: seq<string>, items: seq<string>, attr: string)
    requires IsTagName(attr) && TagFree(items, attr)
    ensures ScanPairs(found, Wrap(items, attr), attr, |items|) == Ok(found + items)
    decreases |items|
  {
    if items == [] {
      assert found + items == found;
    } else {
      WrapHead(items, attr);
      ScanWrap(found + [items[0]], items[1..], attr);
      ScanWrapStep(found, items, Wrap(items, attr), Wrap(items[1..], attr), attr);
    }
  }

  /** `get_attr_list` recovers, in document order, the items of consecutive tag pairs. */
  lemma AttrListRoundTrip(items: seq<string>, attr: string)
    requires IsTagName(attr) && TagFree(items, attr)
    ensures AttrList(Wrap(items, attr), attr) == Ok(items)
  {
    CountWrap(items, attr);
    ScanWrap([], items, attr);
    assert [] + items == items;
  }

  /**
   * `get_attr` recovers the item of a tag pair when the text before it holds
   * neither tag and the item holds no closing tag.
   */
  lemma GetAttrRoundTrip(pre: string, s: string, post: string, attr: string)
    requires IsTagName(attr)
    requires !Contains(pre, OpenTag(attr)) && !Contains(pre, CloseTag(attr))
    requires !Contains(s, CloseTag(attr))
    ensures GetAttr(pre + OpenTag(attr) + s + CloseTag(attr) + post, attr) == Ok(s)
  {
    var open, close := OpenTag(attr), CloseTag(attr);
    var w := pre + open + s + close + post;
    TagsAreTagShaped(attr);
    assert w == pre + (open + (s + close + post));
    FoundAfter(pre, open, s + close + post);
    OpenTagNoClose(attr, s);
    NotContainsConcat(pre, open + s, close);
    assert pre + open + s == pre + (open + s);
    assert w == (pre + open + s) + (close + post);
    FoundAfter(pre + open + s, close, post);
    assert w[|pre| + |open|..|pre + open + s|] == s;
  }
}
