/**
 What the SFTP connection manager of `download-manager.py` computes from a
 remote listing: the newest-first order of `list_directory` and the recursive
 total of `get_directory_size`. The SFTP session itself is not modelled: a
 listing is given as data, and a directory whose listing failed is an
 `Unreadable` node.
 */
module RemoteListing {
  import opened Text
  import Sorting

  /** One row of `list_directory`: name, byte size, modification time, kind. */
  datatype Entry = Entry(name: string, size: int, mtime: int, isDir: bool)

  /** The sort key `-mtime`: `a` may come before `b`. */
  predicate NewerOrSame(a: Entry, b: Entry) {
    a.mtime >= b.mtime
  }

  lemma NewerOrSameIsPreorder()
    ensures Sorting.TotalPreorder(NewerOrSame)
  {
  }

  /**
   `files.sort(key=lambda x: -x['mtime'])`: newest first, whatever the kind,
   and a permutation of the listing.
   */
  function SortNewestFirst(files: seq<Entry>): (r: seq<Entry>)
    ensures multiset(r) == multiset(files)
    ensures forall i, j :: 0 <= i < j < |r| ==> r[i].mtime >= r[j].mtime
  {
    NewerOrSameIsPreorder();
    Sorting.Sort(files, NewerOrSame)
  }

  /** The entries modified at time `t`, in the order given. */
  function ModifiedAt(files: seq<Entry>, t: int): seq<Entry> {
    if |files| == 0 then []
    else (if files[0].mtime == t then [files[0]] else []) + ModifiedAt(files[1..], t)
  }

  lemma {:induction false} ModifiedAtArePeers(files: seq<Entry>, a: Entry)
    ensures ModifiedAt(files, a.mtime) == Sorting.Peers(files, a, NewerOrSame)
    decreases |files|
  {
    if |files| > 0 {
      ModifiedAtArePeers(files[1..], a);
    }
  }

  /** Python's sort is stable: entries with equal times keep the server's order. */
  lemma SortNewestFirstStable(files: seq<Entry>, t: int)
    ensures ModifiedAt(SortNewestFirst(files), t) == ModifiedAt(files, t)
  {
    var a := Entry("", 0, t, false);
    NewerOrSameIsPreorder();
    Sorting.SortStable(files, a, NewerOrSame);
    ModifiedAtArePeers(files, a);
    ModifiedAtArePeers(SortNewestFirst(files), a);
  }

  // ---------------------------------------------------------------------------
  // get_directory_size
  // ---------------------------------------------------------------------------

  /**
   A remote tree. `Unreadable` is a directory whose listing raised: the source
   swallows that error and counts nothing below it.
   */
  datatype Node =
    | File(name: string, size: int)
    | Dir(name: string, children: seq<Node>)
    | Unreadable(name: string)

  /** The bytes a node adds to `total_size` while `scan_dir` walks it. */
  function NodeSize(n: Node): int
    decreases n
  {
    match n
    case File(_, size) => size
    case Unreadable(_) => 0
    case Dir(_, cs) => ListSize(cs)
  }

  function ListSize(cs: seq<Node>): int
    decreases cs
  {
    if |cs| == 0 then 0 else NodeSize(cs[0]) + ListSize(cs[1..])
  }

  /** Sizes of every file `scan_dir` reaches, in the order it reaches them. */
  function NodeFiles(n: Node): seq<int>
    decreases n
  {
    match n
    case File(_, size) => [size]
    case Unreadable(_) => []
    case Dir(_, cs) => ListFiles(cs)
  }

  function ListFiles(cs: seq<Node>): seq<int>
    decreases cs
  {
    if |cs| == 0 then [] else NodeFiles(cs[0]) + ListFiles(cs[1..])
  }

  function Sum(xs: seq<int>): int {
    if |xs| == 0 then 0 else xs[0] + Sum(xs[1..])
  }

  lemma {:induction false} SumAppend(xs: seq<int>, ys: seq<int>)
    ensures Sum(xs + ys) == Sum(xs) + Sum(ys)
    decreases |xs|
  {
    if |xs| > 0 {
      assert (xs + ys)[1..] == xs[1..] + ys;
      SumAppend(xs[1..], ys);
    } else {
      assert xs + ys == ys;
    }
  }

  /**
   `get_directory_size`: 0 without a connection or when the directory itself
   cannot be listed, otherwise the sum over the reachable files.
   */
  function GetDirectorySize(connected: bool, listing: Option<seq<Node>>): (total: int)
    ensures !connected || listing.None? ==> total == 0
  {
    if !connected then 0
    else match listing
      case None => 0
      case Some(cs) => ListSize(cs)
  }

  /** The recursive total equals the sum over the files the walk reaches. */
  lemma {:induction false} NodeSizeIsSumOfFiles(n: Node)
    ensures NodeSize(n) == Sum(NodeFiles(n))
    decreases n
  {
    match n
    case File(_, _) =>
    case Unreadable(_) =>
    case Dir(_, cs) => ListSizeIsSumOfFiles(cs);
  }

  lemma {:induction false} ListSizeIsSumOfFiles(cs: seq<Node>)
    ensures ListSize(cs) == Sum(ListFiles(cs))
    decreases cs
  {
    if |cs| > 0 {
      NodeSizeIsSumOfFiles(cs[0]);
      ListSizeIsSumOfFiles(cs[1..]);
      SumAppend(NodeFiles(cs[0]), ListFiles(cs[1..]));
    }
  }

  /** Sizes add up across siblings: an unreadable sibling costs nothing else. */
  lemma {:induction false} ListSizeAppend(a: seq<Node>, b: seq<Node>)
    ensures ListSize(a + b) == ListSize(a) + ListSize(b)
    decreases |a|
  {
    if |a| > 0 {
      assert (a + b)[0] == a[0];
      assert (a + b)[1..] == a[1..] + b;
      ListSizeAppend(a[1..], b);
    } else {
      assert a + b == b;
    }
  }

  /** With non-negative file sizes (`st_size`) the total is non-negative. */
  predicate SizesNonNegative(n: Node)
    decreases n
  {
    match n
    case File(_, size) => size >= 0
    case Unreadable(_) => true
    case Dir(_, cs) => forall i :: 0 <= i < |cs| ==> SizesNonNegative(cs[i])
  }

  lemma {:induction false} NodeSizeNonNegative(n: Node)
    requires SizesNonNegative(n)
    ensures NodeSize(n) >= 0
    decreases n
  {
    match n
    case File(_, _) =>
    case Unreadable(_) =>
    case Dir(_, cs) => ListSizeNonNegative(cs);
  }

  lemma {:induction false} ListSizeNonNegative(cs: seq<Node>)
    requires forall i :: 0 <= i < |cs| ==> SizesNonNegative(cs[i])
    ensures ListSize(cs) >= 0
    decreases cs
  {
    if |cs| > 0 {
      NodeSizeNonNegative(cs[0]);
      ListSizeNonNegative(cs[1..]);
    }
  }
}
