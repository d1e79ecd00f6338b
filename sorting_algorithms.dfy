/**
 * `SortingAlgorithms`: the eight algorithms under their display names, the lookup of an
 * algorithm by name and the list of names offered to the user.
 */
module SortingAlgorithms {
  import opened Wrappers
  import opened SortSpec
  import ComparisonSorts
  import MergeSorting
  import QuickSorting
  import TreeSorting
  import CountingSorting
  import RadixSorting

  datatype Algorithm = Tree | Bubble | Selection | Insertion | Merge | Quick | Counting | Radix

  /** The key of the algorithm in the table of `get_sorting_function`. */
  function Name(a: Algorithm): string {
    match a
    case Tree => "Tree Sort"
    case Bubble => "Bubble Sort"
    case Selection => "Selection Sort"
    case Insertion => "Insertion Sort"
    case Merge => "Merge Sort"
    case Quick => "Quick Sort"
    case Counting => "Counting Sort"
    case Radix => "Radix Sort"
  }

  /** Different algorithms have different names. */
  lemma NameInjective(a: Algorithm, b: Algorithm)
    requires Name(a) == Name(b)
    ensures a == b
  {
    assert Name(a)[0] == Name(b)[0];
    assert Name(a)[1] == Name(b)[1];
  }

  /** `get_available_algorithms`: the eight names, in the order the user sees them. */
  function GetAvailableAlgorithms(): (names: seq<string>)
    ensures |names| == 8
    ensures forall a: Algorithm :: Name(a) in names
  {
    [Name(Tree), Name(Bubble), Name(Selection), Name(Insertion),
     Name(Merge), Name(Quick), Name(Counting), Name(Radix)]
  }

  /** No name is listed twice. */
  lemma AvailableDistinct()
    ensures forall i, j :: 0 <= i < j < |GetAvailableAlgorithms()| ==>
              GetAvailableAlgorithms()[i] != GetAvailableAlgorithms()[j]
  {
    var names := GetAvailableAlgorithms();
    forall i, j | 0 <= i < j < |names| ensures names[i] != names[j] {
      var a, b := AlgorithmAt(i), AlgorithmAt(j);
      if names[i] == names[j] {
        NameInjective(a, b);
      }
    }
  }

  /** The algorithm listed at index `i`. */
  function AlgorithmAt(i: int): (a: Algorithm)
    requires 0 <= i < 8
    ensures GetAvailableAlgorithms()[i] == Name(a) && AlgorithmIndex(a) == i
  {
    [Tree, Bubble, Selection, Insertion, Merge, Quick, Counting, Radix][i]
  }

  function AlgorithmIndex(a: Algorithm): (i: nat)
  {
    match a
    case Tree => 0
    case Bubble => 1
    case Selection => 2
    case Insertion => 3
    case Merge => 4
    case Quick => 5
    case Counting => 6
    case Radix => 7
  }

  /** `get_sorting_function`: the algorithm registered under `name`, and `None` (what
      `dict.get` returns) for any other string. */
  function GetSortingFunction(name: string): (r: Option<Algorithm>)
    ensures r.Some? <==> name in GetAvailableAlgorithms()
    ensures r.Some? ==> Name(r.value) == name
  {
    if name == Name(Tree) then Some(Tree)
    else if name == Name(Bubble) then Some(Bubble)
    else if name == Name(Selection) then Some(Selection)
    else if name == Name(Insertion) then Some(Insertion)
    else if name == Name(Merge) then Some(Merge)
    else if name == Name(Quick) then Some(Quick)
    else if name == Name(Counting) then Some(Counting)
    else if name == Name(Radix) then Some(Radix)
    else None
  }

  /** Looking up the name of an algorithm finds that algorithm, so every listed name
      resolves and resolves to a different algorithm. */
  lemma LookupName(a: Algorithm)
    ensures GetSortingFunction(Name(a)) == Some(a)
  {
    NameInjective(GetSortingFunction(Name(a)).value, a);
  }

  /** Calling the function `get_sorting_function` returns: every algorithm returns the
      sorted list, on a new list, except that counting sort raises its `ValueError` when
      the range of values is too wide. */
  method Sort(a: Algorithm, input: seq<int>) returns (r: Result<seq<int>, string>)
    ensures r.Failure? <==>
            a == Counting && input != [] && Max(input) - Min(input) + 1 > CountingSorting.MaxRange
    ensures r.Failure? ==> r.error == CountingSorting.RangeError
    ensures r.Success? ==> SortedPermutation(r.value, input)
  {
    var s: seq<int>;
    match a {
      case Tree => s := TreeSorting.TreeSort(input);
      case Bubble => s := ComparisonSorts.BubbleSort(input);
      case Selection => s := ComparisonSorts.SelectionSort(input);
      case Insertion => s := ComparisonSorts.InsertionSort(input);
      case Merge => s := MergeSorting.MergeSort(input);
      case Quick => s := QuickSorting.QuickSort(input);
      case Radix => s := RadixSorting.RadixSort(input);
      case Counting => r := CountingSorting.CountingSort(input); return;
    }
    r := Success(s);
  }
}
