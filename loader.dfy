/**
 * The line logic of `read_data`: the first line is the capacity, every later
 * line one item `weight value`, and the first bad line aborts the load.
 */
module Loader {
  import opened Wrappers
  import opened Bits
  import opened Text
  import opened Evaluator

  /**
   * The ways a load fails: no first line ("File is empty!"), a token that is
   * not an `i32`, and an item line without exactly two numbers.
   */
  datatype LoadError = EmptyFile | InvalidNumber | NotTwoNumbers

  /** A loaded instance: the capacity and the items in input order. */
  datatype Instance = Instance(capacity: int, items: seq<Item>)

  /** `.map(|part| part.parse::<i32>()).collect::<Result<Vec<_>, _>>()`: stops at the first bad token. */
  function ParseTokens(tokens: seq<string>): (r: Result<seq<int>, LoadError>)
    ensures r.Ok? <==> forall i :: 0 <= i < |tokens| ==> ParseI32(tokens[i]).Some?
    ensures r.Ok? ==> |r.value| == |tokens| && forall i :: 0 <= i < |tokens| ==> ParseI32(tokens[i]) == Some(r.value[i])
    ensures r.Err? ==> r.error == InvalidNumber
  {
    if tokens == [] then Ok([])
    else
      match ParseI32(tokens[0])
      case None => Err(InvalidNumber)
      case Some(x) =>
        match ParseTokens(tokens[1..])
        case Err(e) => Err(e)
        case Ok(xs) => Ok([x] + xs)
  }

  /** One item line: its whitespace-separated tokens must all be `i32`s, and there must be two. */
  function ParseItemLine(line: string): (r: Result<Item, LoadError>)
    ensures var tokens := SplitWhitespace(line);
            r.Ok? <==> |tokens| == 2 && ParseI32(tokens[0]).Some? && ParseI32(tokens[1]).Some?
    ensures var tokens := SplitWhitespace(line);
            r.Ok? ==> ParseI32(tokens[0]) == Some(r.value.weight) && ParseI32(tokens[1]) == Some(r.value.value)
    ensures r.Ok? ==> I32Min <= r.value.weight <= I32Max && I32Min <= r.value.value <= I32Max
  {
    match ParseTokens(SplitWhitespace(line))
    case Err(e) => Err(e)
    case Ok(parts) =>
      if |parts| != 2 then Err(NotTwoNumbers)
      else Ok(Item(parts[0], parts[1]))
  }

  /**
   * Why an item line fails: a token that is not an `i32` is reported first,
   * before the count of tokens is looked at.
   */
  lemma ItemLineErrors(line: string)
    ensures var tokens := SplitWhitespace(line);
            ParseItemLine(line) == Err(InvalidNumber) <==> exists i :: 0 <= i < |tokens| && ParseI32(tokens[i]).None?
    ensures var tokens := SplitWhitespace(line);
            ParseItemLine(line) == Err(NotTwoNumbers) <==>
              (forall i :: 0 <= i < |tokens| ==> ParseI32(tokens[i]).Some?) && |tokens| != 2
  {
  }

  /** A blank line, or one of whitespace only, is an item line without two numbers. */
  lemma BlankLineRejected(line: string)
    requires forall k :: 0 <= k < |line| ==> IsWhitespace(line[k])
    ensures ParseItemLine(line) == Err(NotTwoNumbers)
  {
    SplitBlank(line);
    assert ParseTokens([]) == Ok([]);
  }

  /**
   * `collect::<Result<Vec<_>, _>>()` over results taken in order: the
   * values of all of them, or the error of the first that failed.
   */
  function Collect<T, E>(rs: seq<Result<T, E>>): (r: Result<seq<T>, E>)
    ensures r.Ok? <==> forall i :: 0 <= i < |rs| ==> rs[i].Ok?
    ensures r.Ok? ==> |r.value| == |rs| && forall i :: 0 <= i < |rs| ==> rs[i] == Ok(r.value[i])
  {
    if rs == [] then Ok([])
    else
      match rs[0]
      case Err(e) => Err(e)
      case Ok(x) =>
        match Collect(rs[1..])
        case Err(e) => Err(e)
        case Ok(xs) => Ok([x] + xs)
  }

  /** A failed collection carries the error of the first failed result. */
  lemma {:induction false} CollectFailsAtFirstError<T, E>(rs: seq<Result<T, E>>)
    requires Collect(rs).Err?
    ensures exists i :: 0 <= i < |rs| && rs[i] == Err(Collect(rs).error) && forall j :: 0 <= j < i ==> rs[j].Ok?
  {
    if rs[0].Ok? {
      CollectFailsAtFirstError(rs[1..]);
      var i :| 0 <= i < |rs[1..]| && rs[1..][i] == Err(Collect(rs[1..]).error)
               && forall j :: 0 <= j < i ==> rs[1..][j].Ok?;
      assert rs[i + 1] == Err(Collect(rs).error);
      assert forall j :: 0 <= j < i + 1 ==> rs[j].Ok? by {
        forall j | 0 <= j < i + 1
          ensures rs[j].Ok?
        {
          if j > 0 {
            assert rs[j] == rs[1..][j - 1];
          }
        }
      }
    }
  }

  /** The item lines: each is parsed, and the results are collected. */
  function ParseItems(lines: seq<string>): (r: Result<seq<Item>, LoadError>)
    ensures r.Ok? <==> forall i :: 0 <= i < |lines| ==> ParseItemLine(lines[i]).Ok?
    ensures r.Ok? ==> |r.value| == |lines| && forall i :: 0 <= i < |lines| ==> ParseItemLine(lines[i]) == Ok(r.value[i])
  {
    var rs := seq(|lines|, i requires 0 <= i < |lines| => ParseItemLine(lines[i]));
    assert forall i :: 0 <= i < |lines| ==> rs[i] == ParseItemLine(lines[i]);
    Collect(rs)
  }

  /** A failed load reports the error of the first bad item line. */
  lemma ParseItemsFailsAtFirstBadLine(lines: seq<string>)
    requires ParseItems(lines).Err?
    ensures exists i :: 0 <= i < |lines| && ParseItemLine(lines[i]) == Err(ParseItems(lines).error)
                        && forall j :: 0 <= j < i ==> ParseItemLine(lines[j]).Ok?
  {
    var rs := seq(|lines|, i requires 0 <= i < |lines| => ParseItemLine(lines[i]));
    CollectFailsAtFirstError(rs);
    var i :| 0 <= i < |rs| && rs[i] == Err(Collect(rs).error) && forall j :: 0 <= j < i ==> rs[j].Ok?;
    assert ParseItemLine(lines[i]) == Err(ParseItems(lines).error);
    assert forall j :: 0 <= j < i ==> ParseItemLine(lines[j]).Ok? by {
      forall j | 0 <= j < i
        ensures ParseItemLine(lines[j]).Ok?
      {
        assert rs[j] == ParseItemLine(lines[j]);
      }
    }
  }

  /**
   * `read_data` on the lines of the file: the trimmed first line is the
   * capacity, each later line an item.
   */
  function ReadData(lines: seq<string>): (r: Result<Instance, LoadError>)
    ensures lines == [] ==> r == Err(EmptyFile)
    ensures r.Ok? <==> lines != [] && ParseI32(Trim(lines[0])).Some?
                       && forall i :: 1 <= i < |lines| ==> ParseItemLine(lines[i]).Ok?
    ensures r.Ok? ==> ParseI32(Trim(lines[0])) == Some(r.value.capacity) && |r.value.items| == |lines| - 1
    ensures r.Ok? ==> forall i :: 0 <= i < |r.value.items| ==> ParseItemLine(lines[1..][i]) == Ok(r.value.items[i])
    ensures lines != [] && ParseI32(Trim(lines[0])).None? ==> r == Err(InvalidNumber)
  {
    if lines == [] then Err(EmptyFile)
    else
      match ParseI32(Trim(lines[0]))
      case None => Err(InvalidNumber)
      case Some(capacity) =>
        match ParseItems(lines[1..])
        case Err(e) => Err(e)
        case Ok(items) => Ok(Instance(capacity, items))
  }

  /** The text of an instance: the capacity, then one `weight value` line per item. */
  function FormatInstance(inst: Instance): seq<string>
  {
    [FormatI32(inst.capacity)]
    + seq(|inst.items|, i requires 0 <= i < |inst.items| =>
            JoinSpaces([FormatI32(inst.items[i].weight), FormatI32(inst.items[i].value)]))
  }

  predicate InstanceInI32(inst: Instance)
  {
    && I32Min <= inst.capacity <= I32Max
    && forall i :: 0 <= i < |inst.items| ==>
         I32Min <= inst.items[i].weight <= I32Max && I32Min <= inst.items[i].value <= I32Max
  }

  lemma ParseFormattedItem(item: Item)
    requires I32Min <= item.weight <= I32Max && I32Min <= item.value <= I32Max
    ensures ParseItemLine(JoinSpaces([FormatI32(item.weight), FormatI32(item.value)])) == Ok(item)
  {
    var tokens := [FormatI32(item.weight), FormatI32(item.value)];
    SplitJoinRoundTrip(tokens);
    ParseFormatRoundTrip(item.weight);
    ParseFormatRoundTrip(item.value);
  }

  /** Reading the text of an instance of `i32`s gives the instance back. */
  lemma ReadFormatRoundTrip(inst: Instance)
    requires InstanceInI32(inst)
    ensures ReadData(FormatInstance(inst)) == Ok(inst)
  {
    var lines := FormatInstance(inst);
    TrimProperties(lines[0]);
    ParseFormatRoundTrip(inst.capacity);
    forall i | 0 <= i < |inst.items|
      ensures ParseItemLine(lines[1..][i]) == Ok(inst.items[i])
    {
      ParseFormattedItem(inst.items[i]);
    }
    var r := ParseItems(lines[1..]);
    assert r.Ok?;
    assert r.value == inst.items;
  }
}
