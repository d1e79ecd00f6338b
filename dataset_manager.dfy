/**
 * `DatasetManager`: the size limit, the schedule of fifteen subset sizes, the generated
 * subsets, the check of a file name and the reading of a comma-separated list of
 * integers out of a file's text.
 */
module DatasetManagement {
  import opened Wrappers
  import opened Text
  import opened Ranges

  /** `MAX_SIZE`. */
  const MaxSize := 1000000
  /** `NUM_SUBSETS`. */
  const NumSubsets := 15

  /** The `(valid, message)` pair the validators return. */
  datatype Check = Check(valid: bool, message: string)

  const SizeNotPositive := "El tamaño debe ser mayor a 0"
  /** The message formats `MAX_SIZE` with thousands separators. */
  const SizeTooLarge := "El tamaño máximo permitido es 1,000,000"

  /** `validate_size`: valid exactly for sizes from 1 to `MAX_SIZE`, the empty message
      then and one message per way of failing. */
  function ValidateSize(size: int): (r: Check)
    ensures r.valid <==> 0 < size <= MaxSize
    ensures r.valid <==> r.message == ""
    ensures size <= 0 ==> r.message == SizeNotPositive
    ensures size > MaxSize ==> r.message == SizeTooLarge
  {
    if size <= 0 then Check(false, SizeNotPositive)
    else if size > MaxSize then Check(false, SizeTooLarge)
    else Check(true, "")
  }

  const NoFile := "Debe seleccionar un archivo"
  const NotTxt := "Solo se permiten archivos .txt"

  /** `validate_file_path`: valid exactly for a non-empty name ending in `.txt`; the empty
      name is reported as such, whatever its extension. */
  function ValidateFilePath(path: string): (r: Check)
    ensures r.valid <==> path != "" && EndsWith(path, ".txt")
    ensures r.valid <==> r.message == ""
    ensures path == "" ==> r.message == NoFile
    ensures path != "" && !EndsWith(path, ".txt") ==> r.message == NotTxt
  {
    if path == "" then Check(false, NoFile)
    else if !EndsWith(path, ".txt") then Check(false, NotTxt)
    else Check(true, "")
  }

  // ---------------------------------------------------------------------------
  // The size schedule
  // ---------------------------------------------------------------------------

  /** Entry `i` (from 0) of the schedule for `maxSize`: `i + 1` steps of `maxSize // 15`,
      except that the last entry is `maxSize` itself. Python's `//` and Dafny's `/` agree
      for the positive divisor 15. */
  function SubsetSize(maxSize: int, i: nat): int {
    if i == NumSubsets - 1 then maxSize else (maxSize / NumSubsets) * (i + 1)
  }

  /** `get_subset_sizes(max_size)`: the fifteen entries of the schedule. */
  method GetSubsetSizes(maxSize: int) returns (sizes: seq<int>)
    ensures |sizes| == NumSubsets
    ensures forall i :: 0 <= i < NumSubsets ==> sizes[i] == SubsetSize(maxSize, i)
  {
    sizes := [];
    var step := maxSize / NumSubsets;
    for i := 1 to NumSubsets + 1
      invariant |sizes| == i - 1
      invariant forall k :: 0 <= k < i - 1 ==> sizes[k] == SubsetSize(maxSize, k)
    {
      var size := step * i;
      if i == NumSubsets {
        size := maxSize;
      }
      sizes := sizes + [size];
    }
  }

  lemma MulMono(a: int, b: int, c: int)
    requires 0 <= a && b <= c
    ensures a * b <= a * c
  {
    assert a * c - a * b == a * (c - b);
  }

  /** For a size that is not negative the schedule never decreases, starts at 0 or more
      and never passes the size itself. */
  lemma ScheduleOrdered(maxSize: int, i: nat, j: nat)
    requires 0 <= maxSize && i <= j < NumSubsets
    ensures 0 <= SubsetSize(maxSize, i) <= SubsetSize(maxSize, j) <= maxSize
  {
    var step := maxSize / NumSubsets;
    assert 0 <= step && step * NumSubsets <= maxSize;
    MulMono(step, i + 1, j + 1);
    MulMono(step, j + 1, NumSubsets);
  }

  /** Consecutive entries are one step apart, except that the last one also takes up the
      remainder `maxSize % 15`: the subsets are balanced. */
  lemma ScheduleSteps(maxSize: int, i: nat)
    requires i < NumSubsets - 1
    ensures SubsetSize(maxSize, i + 1) - SubsetSize(maxSize, i) ==
            maxSize / NumSubsets + (if i + 1 == NumSubsets - 1 then maxSize % NumSubsets else 0)
  {
    var step := maxSize / NumSubsets;
    assert step * (i + 2) == step * (i + 1) + step;
  }

  /** `generate_subsets(max_size, ordered)`: fifteen lists `list(range(size))` for the
      sizes of the schedule, each passed through `random.shuffle` unless `ordered`.
      `shuffle` stands for `random.shuffle`: it may return any arrangement of its list. */
  method GenerateSubsets(maxSize: int, ordered: bool, shuffle: seq<int> -> seq<int>)
    returns (subsets: seq<seq<int>>)
    requires forall s :: multiset(shuffle(s)) == multiset(s)
    ensures |subsets| == NumSubsets
    ensures forall i :: 0 <= i < NumSubsets ==>
              multiset(subsets[i]) == multiset(Range(SubsetSize(maxSize, i)))
    ensures ordered ==> forall i :: 0 <= i < NumSubsets ==> subsets[i] == Range(SubsetSize(maxSize, i))
    ensures 0 <= maxSize ==> forall i :: 0 <= i < NumSubsets ==> |subsets[i]| == SubsetSize(maxSize, i)
  {
    subsets := [];
    var step := maxSize / NumSubsets;
    for i := 1 to NumSubsets + 1
      invariant |subsets| == i - 1
      invariant forall k :: 0 <= k < i - 1 ==>
                  multiset(subsets[k]) == multiset(Range(SubsetSize(maxSize, k)))
      invariant ordered ==> forall k :: 0 <= k < i - 1 ==> subsets[k] == Range(SubsetSize(maxSize, k))
    {
      var size := step * i;
      if i == NumSubsets {
        size := maxSize;
      }
      var subset := Range(size);
      if !ordered {
        subset := shuffle(subset);
      }
      subsets := subsets + [subset];
    }
    forall i | 0 <= maxSize && 0 <= i < NumSubsets ensures |subsets[i]| == SubsetSize(maxSize, i) {
      ScheduleOrdered(maxSize, 0, i);
      assert |multiset(subsets[i])| == |multiset(Range(SubsetSize(maxSize, i)))|;
    }
  }

  // ---------------------------------------------------------------------------
  // Reading the numbers of a file
  // ---------------------------------------------------------------------------

  function InvalidValue(item: string): string {
    "Valor inválido encontrado: '" + item + "'"
  }

  const EmptyFile := "El archivo está vacío o no contiene números válidos"

  /** The items among the comma-separated pieces: each piece stripped, and the empty
      ones skipped, in their order. */
  function Items(pieces: seq<string>): (r: seq<string>)
    ensures |r| <= |pieces|
    ensures forall k :: 0 <= k < |r| ==> r[k] != []
  {
    if pieces == [] then []
    else
      var item := Strip(pieces[|pieces| - 1]);
      Items(pieces[..|pieces| - 1]) + (if item == [] then [] else [item])
  }

  /** `int(item)` for each item in turn, stopping at the first item that is not an
      integer. */
  function ParseItems(items: seq<string>): Result<seq<int>, string> {
    if items == [] then Success([])
    else
      match ParseItems(items[..|items| - 1])
      case Failure(e) => Failure(e)
      case Success(numbers) =>
        match ParseInt(items[|items| - 1])
        case None => Failure(InvalidValue(items[|items| - 1]))
        case Some(v) => Success(numbers + [v])
  }

  /** The parsing part of `load_from_file`, given the text the file holds. */
  function LoadContent(text: string): Result<seq<int>, string> {
    match ParseItems(Items(Split(Strip(text), ',')))
    case Failure(e) => Failure(e)
    case Success(numbers) =>
      if numbers == [] then Failure(EmptyFile)
      else if !ValidateSize(|numbers|).valid then Failure(ValidateSize(|numbers|).message)
      else Success(numbers)
  }

  /** A failed prefix stays failed, with the same message, however many pieces follow. */
  lemma {:induction false} FailureStays(pieces: seq<string>, k: nat)
    requires k <= |pieces| && ParseItems(Items(pieces[..k])).Failure?
    ensures ParseItems(Items(pieces)) == ParseItems(Items(pieces[..k]))
    decreases |pieces|
  {
    if k < |pieces| {
      var init := pieces[..|pieces| - 1];
      assert init[..k] == pieces[..k];
      FailureStays(init, k);
      var item := Strip(pieces[|pieces| - 1]);
      assert pieces[..|pieces| - 1] == init;
      if item != [] {
        var items := Items(init) + [item];
        assert items[..|items| - 1] == Items(init);
      } else {
        assert Items(pieces) == Items(init);
      }
    } else {
      assert pieces[..k] == pieces;
    }
  }

  /** The items of one more piece: its stripped text, unless that is empty. */
  lemma ItemsStep(pieces: seq<string>, k: nat)
    requires k < |pieces|
    ensures Items(pieces[..k + 1]) ==
            Items(pieces[..k]) + (if Strip(pieces[k]) == [] then [] else [Strip(pieces[k])])
  {
    assert pieces[..k + 1][..k] == pieces[..k];
  }

  /** One turn of the loop over the pieces when the item is an integer: it is appended. */
  lemma ParseStepAppend(pieces: seq<string>, k: nat, numbers: seq<int>, v: int)
    requires k < |pieces| && ParseItems(Items(pieces[..k])) == Success(numbers)
    requires Strip(pieces[k]) != [] && ParseInt(Strip(pieces[k])) == Some(v)
    ensures ParseItems(Items(pieces[..k + 1])) == Success(numbers + [v])
  {
    ItemsStep(pieces, k);
    var items := Items(pieces[..k]) + [Strip(pieces[k])];
    assert items[..|items| - 1] == Items(pieces[..k]);
  }

  /** One turn of the loop over the pieces when the item is not an integer: the whole
      text fails with its message. */
  lemma ParseStepFail(pieces: seq<string>, k: nat, numbers: seq<int>)
    requires k < |pieces| && ParseItems(Items(pieces[..k])) == Success(numbers)
    requires Strip(pieces[k]) != [] && ParseInt(Strip(pieces[k])).None?
    ensures ParseItems(Items(pieces)) == Failure(InvalidValue(Strip(pieces[k])))
  {
    ItemsStep(pieces, k);
    var items := Items(pieces[..k]) + [Strip(pieces[k])];
    assert items[..|items| - 1] == Items(pieces[..k]);
    FailureStays(pieces, k + 1);
  }

  /** `load_from_file` once the file has been read: the numbers of `text` in order, or the
      first invalid item, the empty-file message or the size message. */
  method LoadFromContent(text: string) returns (r: Result<seq<int>, string>)
    ensures r == LoadContent(text)
  {
    var content := Strip(text);
    var pieces := Split(content, ',');
    var numbers := [];
    for k := 0 to |pieces|
      invariant ParseItems(Items(pieces[..k])) == Success(numbers)
    {
      var item := Strip(pieces[k]);
      if item != [] {
        var v := ParseInt(item);
        if v.None? {
          ParseStepFail(pieces, k, numbers);
          return Failure(InvalidValue(item));
        }
        ParseStepAppend(pieces, k, numbers, v.value);
        numbers := numbers + [v.value];
      } else {
        ItemsStep(pieces, k);
        assert Items(pieces[..k]) + [] == Items(pieces[..k]);
      }
    }
    assert pieces[..|pieces|] == pieces;
    if numbers == [] {
      return Failure(EmptyFile);
    }
    var check := ValidateSize(|numbers|);
    if !check.valid {
      return Failure(check.message);
    }
    return Success(numbers);
  }

  // ---------------------------------------------------------------------------
  // What the parsing accepts
  // ---------------------------------------------------------------------------

  /** Parsing the items succeeds exactly when every item is an integer, and then yields
      their values in order. */
  lemma {:induction false} ParseItemsSuccess(items: seq<string>)
    ensures ParseItems(items).Success? <==> forall k :: 0 <= k < |items| ==> ParseInt(items[k]).Some?
    ensures ParseItems(items).Success? ==>
              |ParseItems(items).value| == |items| &&
              forall k :: 0 <= k < |items| ==> ParseInt(items[k]) == Some(ParseItems(items).value[k])
  {
    if items != [] {
      var init := items[..|items| - 1];
      ParseItemsSuccess(init);
      assert forall k :: 0 <= k < |init| ==> init[k] == items[k];
    }
  }

  /** A failure names the first item that is not an integer. */
  lemma {:induction false} ParseItemsFailure(items: seq<string>)
    requires ParseItems(items).Failure?
    ensures exists k :: 0 <= k < |items| && ParseInt(items[k]).None? &&
              ParseItems(items).error == InvalidValue(items[k]) &&
              forall l :: 0 <= l < k ==> ParseInt(items[l]).Some?
  {
    var init := items[..|items| - 1];
    assert forall k :: 0 <= k < |init| ==> init[k] == items[k];
    if ParseItems(init).Failure? {
      ParseItemsFailure(init);
      var k :| 0 <= k < |init| && ParseInt(init[k]).None? &&
               ParseItems(init).error == InvalidValue(init[k]) &&
               forall l :: 0 <= l < k ==> ParseInt(init[l]).Some?;
      assert items[k] == init[k];
    } else {
      ParseItemsSuccess(init);
      assert ParseInt(items[|items| - 1]).None?;
    }
  }

  /** The outcomes of reading a file, by the items its text holds: the first item that is
      not an integer, then no numbers at all, then too many numbers, and otherwise the
      numbers in order with no message. */
  lemma LoadContentCases(text: string)
    ensures var items := Items(Split(Strip(text), ','));
            && ((exists k :: 0 <= k < |items| && ParseInt(items[k]).None?) <==>
                 LoadContent(text).Failure? && LoadContent(text) == ParseItems(items))
            && ((forall k :: 0 <= k < |items| ==> ParseInt(items[k]).Some?) ==>
                 && (items == [] ==> LoadContent(text) == Failure(EmptyFile))
                 && (|items| > MaxSize ==> LoadContent(text) == Failure(SizeTooLarge))
                 && (0 < |items| <= MaxSize ==>
                       LoadContent(text).Success? && |LoadContent(text).value| == |items| &&
                       forall k :: 0 <= k < |items| ==> ParseInt(items[k]) == Some(LoadContent(text).value[k])))
  {
    var items := Items(Split(Strip(text), ','));
    ParseItemsSuccess(items);
  }

  /** The text a list of integers is written as: the numbers joined by commas. */
  function Format(numbers: seq<int>): (ts: seq<string>)
    ensures |ts| == |numbers|
    ensures forall k :: 0 <= k < |numbers| ==> ts[k] == IntToString(numbers[k])
  {
    seq(|numbers|, k requires 0 <= k < |numbers| => IntToString(numbers[k]))
  }

  lemma {:induction false} ItemsOfClean(ts: seq<string>)
    requires forall k :: 0 <= k < |ts| ==> ts[k] != [] && Strip(ts[k]) == ts[k]
    ensures Items(ts) == ts
  {
    if ts != [] {
      var init := ts[..|ts| - 1];
      ItemsOfClean(init);
      assert init + [ts[|ts| - 1]] == ts;
    }
  }

  lemma {:induction false} ParseFormatted(numbers: seq<int>)
    ensures ParseItems(Format(numbers)) == Success(numbers)
  {
    if numbers != [] {
      var init := numbers[..|numbers| - 1];
      ParseFormatted(init);
      assert Format(numbers)[..|numbers| - 1] == Format(init);
      ParseIntToString(numbers[|numbers| - 1]);
      assert init + [numbers[|numbers| - 1]] == numbers;
    }
  }

  lemma FormattedClean(x: int)
    ensures IntToString(x) != [] && ',' !in IntToString(x)
    ensures Strip(IntToString(x)) == IntToString(x)
  {
    var s := IntToString(x);
    assert !IsSpace(s[0]) && !IsSpace(s[|s| - 1]);
    StripUnchanged(s);
  }

  /** Reading back a list of 1 to `MAX_SIZE` integers written with commas yields the list. */
  lemma LoadRoundTrip(numbers: seq<int>)
    requires 0 < |numbers| <= MaxSize
    ensures LoadContent(Join(Format(numbers), ',')) == Success(numbers)
  {
    var ts := Format(numbers);
    forall k | 0 <= k < |ts| ensures ts[k] != [] && ',' !in ts[k] && Strip(ts[k]) == ts[k] {
      FormattedClean(numbers[k]);
    }
    var text := Join(ts, ',');
    JoinEnds(ts, ',');
    assert !IsSpace(text[0]) && !IsSpace(text[|text| - 1]) by {
      FormattedClean(numbers[0]);
      FormattedClean(numbers[|numbers| - 1]);
    }
    StripUnchanged(text);
    SplitJoin(ts, ',');
    ItemsOfClean(ts);
    ParseFormatted(numbers);
  }
}
