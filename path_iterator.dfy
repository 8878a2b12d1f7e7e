/** filesystem::path_iterator: a bidirectional cursor over the elements
    of a path. The elements are computed once, when the iterator is
    built over a path, as pairs of offsets into the path's generic string:
    a leading separator is an element of its own, every maximal run of
    non-separators is one, and a trailing separator adds an element of
    two npos offsets that reads as ".". The path's generic_string,
    has_root_directory and preferred_separator are the fields of Path. */
module PathIter {
  import opened Seqs

  /** std::size_t arithmetic wraps modulo this. */
  const SizeLimit: nat := 0x1_0000_0000_0000_0000

  datatype Option<T> = None | Some(value: T)

  /** An offset into the path string, or npos. */
  datatype Offset = Npos | At(i: nat)

  /** One element: the pair (first, second) of offsets. */
  datatype Range = Range(first: Offset, second: Offset)

  /** The services of the path the iterator reads. */
  class Path {
    const str: string
    const sep: char
    const rootDir: bool

    /** A string's length stays below npos. */
    predicate Valid()
    {
      |str| < SizeLimit - 1
    }

    constructor (s: string, separator: char, hasRootDirectory: bool)
      requires |s| < SizeLimit - 1
      ensures str == s && sep == separator && rootDir == hasRootDirectory && Valid()
    {
      str, sep, rootDir := s, separator, hasRootDirectory;
    }
  }

  // ---------------------------------------------------------------------
  // String searches

  /** find_first_not_of(c, pos): the first index at or after pos whose
      character is not c, or npos. */
  function FindFirstNotOf(s: string, c: char, pos: nat): (r: Offset)
    ensures r.At? ==> pos <= r.i < |s| && s[r.i] != c
    ensures forall j :: pos <= j < |s| && (r.Npos? || j < r.i) ==> s[j] == c
    decreases |s| - pos
  {
    if pos >= |s| then Npos
    else if s[pos] != c then At(pos)
    else FindFirstNotOf(s, c, pos + 1)
  }

  /** find_first_of(c, pos): the first index at or after pos whose
      character is c, or npos; from npos there is nothing to find. */
  function FindFirstOf(s: string, c: char, pos: Offset): (r: Offset)
    ensures r.At? ==> pos.At? && pos.i <= r.i < |s| && s[r.i] == c
    ensures pos.At? ==> forall j :: pos.i <= j < |s| && (r.Npos? || j < r.i) ==> s[j] != c
    decreases if pos.At? && pos.i < |s| then |s| - pos.i else 0
  {
    if pos.Npos? || pos.i >= |s| then Npos
    else if s[pos.i] == c then pos
    else FindFirstOf(s, c, At(pos.i + 1))
  }

  // ---------------------------------------------------------------------
  // build_elements

  /** The rounds of build_elements' do-while loop from offset `end`, with
      `size` elements already pushed: each round takes the next run of
      non-separators (npos when none is left) and pushes it, except that
      the closing (npos, npos) pair is dropped when it would follow a
      single element in a path with a root directory. */
  function Split(s: string, sep: char, root: bool, end: nat, size: nat): (r: seq<Range>)
    requires end <= |s|
    decreases |s| - end
  {
    var b := FindFirstNotOf(s, sep, end);
    var e := FindFirstOf(s, sep, b);
    var here := if size != 1 || !root || b.At? || e.At? then [Range(b, e)] else [];
    if e.Npos? then here else here + Split(s, sep, root, e.i, size + |here|)
  }

  /** The element list build_elements computes for a path. */
  function Elements(s: string, sep: char, root: bool): (r: seq<Range>)
  {
    if |s| == 0 then []
    else if s[0] == sep then [Range(At(0), At(1))] + Split(s, sep, root, 1, 1)
    else Split(s, sep, root, 0, 0)
  }

  /** build_elements: the leading separator, then a do-while loop that
      splits the rest of the string. */
  method BuildElements(p: Path) returns (elem: seq<Range>)
    ensures elem == Elements(p.str, p.sep, p.rootDir)
  {
    elem := [];
    var s := p.str;
    var begin, end := At(0), At(0);
    if |s| != 0 {
      if s[0] == p.sep {
        end := At(1);
        elem := elem + [Range(begin, end)];
      }
      var more := true;
      while more
        invariant more ==> (end.At? && end.i <= |s|
          && elem + Split(s, p.sep, p.rootDir, end.i, |elem|) == Elements(s, p.sep, p.rootDir))
        invariant !more ==> elem == Elements(s, p.sep, p.rootDir)
        decreases if more && end.At? && end.i <= |s| then |s| - end.i + 1 else 0
      {
        ghost var before := elem;
        ghost var from := end.i;
        begin := FindFirstNotOf(s, p.sep, end.i);
        end := FindFirstOf(s, p.sep, begin);
        if |elem| != 1 || !p.rootDir || begin != Npos || end != Npos {
          elem := elem + [Range(begin, end)];
        }
        more := end != Npos;
        ghost var here := elem[|before|..];
        assert elem == before + here;
        if more {
          ghost var rest := Split(s, p.sep, p.rootDir, end.i, |elem|);
          assert Split(s, p.sep, p.rootDir, from, |before|) == here + rest;
          SeqAssoc(before, here, rest);
        } else {
          assert Split(s, p.sep, p.rootDir, from, |before|) == here;
        }
      }
    }
  }

  // ---------------------------------------------------------------------
  // What the elements are

  /** One past the last character an element covers. */
  function End(s: string, r: Range): (n: nat)
  {
    if r.second.At? then r.second.i else |s|
  }

  /** An element for a maximal run of non-separators: it starts at the
      start of the string or just after a separator, and ends at a
      separator (second) or at the end of the string (npos). */
  predicate Component(s: string, sep: char, r: Range)
  {
    r.first.At? && r.first.i < End(s, r) <= |s|
    && (r.first.i == 0 || s[r.first.i - 1] == sep)
    && (r.second.At? ==> r.second.i < |s| && s[r.second.i] == sep)
    && forall j :: r.first.i <= j < End(s, r) ==> s[j] != sep
  }

  /** Every element of r but the last is a run ended by a separator; the
      last is a run or the closing (npos, npos). */
  predicate Runs(s: string, sep: char, r: seq<Range>)
  {
    (forall k :: 0 <= k < |r| - 1 ==> Component(s, sep, r[k]) && r[k].second.At?)
    && (r != [] ==> r[|r| - 1] == Range(Npos, Npos) || Component(s, sep, r[|r| - 1]))
  }

  /** One round from `end`: the run it takes, when any is left, is a
      maximal run of non-separators, and a round that ends at a separator
      ends past `end`. */
  lemma RoundRun(s: string, sep: char, end: nat)
    requires end <= |s| && (end == 0 || s[end - 1] == sep || (end < |s| && s[end] == sep))
    ensures var b := FindFirstNotOf(s, sep, end);
      var e := FindFirstOf(s, sep, b);
      (b.At? ==> Component(s, sep, Range(b, e)))
      && (b.Npos? ==> e.Npos?)
      && (e.At? ==> end < e.i < |s| && s[e.i] == sep)
  {
    var b := FindFirstNotOf(s, sep, end);
    if b.At? && b.i > end {
      assert s[b.i - 1] == sep;
    }
  }

  /** A run ended by a separator in front of well-shaped rounds. */
  lemma RunsCons(s: string, sep: char, x: Range, rest: seq<Range>)
    requires Component(s, sep, x) && x.second.At? && Runs(s, sep, rest)
    ensures Runs(s, sep, [x] + rest)
  {
    var r := [x] + rest;
    forall k | 0 <= k < |r| - 1
      ensures Component(s, sep, r[k]) && r[k].second.At?
    {
      if k > 0 {
        assert r[k] == rest[k - 1];
      }
    }
    if rest != [] {
      assert r[|r| - 1] == rest[|rest| - 1];
    }
  }

  /** The shape of the rounds from `end`. The last run ends at a
      separator only when the closing (npos, npos) after it was dropped. */
  lemma {:induction false} SplitShape(s: string, sep: char, root: bool, end: nat, size: nat)
    requires end <= |s| && (end == 0 || s[end - 1] == sep || (end < |s| && s[end] == sep))
    ensures var r := Split(s, sep, root, end, size);
      |r| <= |s| - end + 1 && (size != 1 ==> r != []) && Runs(s, sep, r)
    decreases |s| - end
  {
    var b := FindFirstNotOf(s, sep, end);
    var e := FindFirstOf(s, sep, b);
    RoundRun(s, sep, end);
    if e.At? {
      var rest := Split(s, sep, root, e.i, size + 1);
      assert Split(s, sep, root, end, size) == [Range(b, e)] + rest;
      SplitShape(s, sep, root, e.i, size + 1);
      RunsCons(s, sep, Range(b, e), rest);
    }
  }

  /** Element x covers offset j: j lies from its first offset up to its
      end. */
  predicate Covers(s: string, x: Range, j: nat)
  {
    x.first.At? && x.first.i <= j < End(s, x)
  }

  /** The elements go left to right without overlapping: each one ends at
      or before the next one starts. */
  predicate Ordered(s: string, e: seq<Range>)
  {
    forall k :: 0 <= k < |e| - 1 && e[k + 1].first.At? ==>
      e[k].first.At? && End(s, e[k]) <= e[k + 1].first.i
  }

  /** No element starts before offset `from`. */
  predicate StartsFrom(e: seq<Range>, from: nat)
  {
    forall k :: 0 <= k < |e| && e[k].first.At? ==> from <= e[k].first.i
  }

  /** Every non-separator at or after offset `from` lies in an element. */
  predicate CoveredFrom(s: string, sep: char, e: seq<Range>, from: nat)
  {
    forall j :: from <= j < |s| && s[j] != sep ==> exists k :: 0 <= k < |e| && Covers(s, e[k], j)
  }

  /** An element in front of ordered elements that start at or after its
      end. */
  lemma OrderedCons(s: string, x: Range, rest: seq<Range>, from: nat)
    requires x.first.At? && End(s, x) <= from
    requires StartsFrom(rest, from) && Ordered(s, rest)
    ensures Ordered(s, [x] + rest)
  {
    var e := [x] + rest;
    forall k | 0 <= k < |e| - 1 && e[k + 1].first.At?
      ensures e[k].first.At? && End(s, e[k]) <= e[k + 1].first.i
    {
      assert e[k + 1] == rest[k];
      if k > 0 {
        assert e[k] == rest[k - 1];
      }
    }
  }

  /** An element that covers the non-separators from lo up to from, in
      front of elements that cover those from `from` on. */
  lemma CoveredCons(s: string, sep: char, x: Range, rest: seq<Range>, lo: nat, from: nat)
    requires forall j :: lo <= j < from && j < |s| && s[j] != sep ==> Covers(s, x, j)
    requires CoveredFrom(s, sep, rest, from)
    ensures CoveredFrom(s, sep, [x] + rest, lo)
  {
    var e := [x] + rest;
    forall j | lo <= j < |s| && s[j] != sep
      ensures exists k :: 0 <= k < |e| && Covers(s, e[k], j)
    {
      if j < from {
        assert Covers(s, e[0], j);
      } else {
        var k :| 0 <= k < |rest| && Covers(s, rest[k], j);
        assert e[k + 1] == rest[k];
      }
    }
  }

  /** The rounds from `end` take the runs of non-separators left to
      right, each once: no element starts before `end`, each ends before
      the next starts, and every non-separator from `end` on lies in one. */
  lemma {:induction false} SplitOrder(s: string, sep: char, root: bool, end: nat, size: nat)
    requires end <= |s|
    ensures var r := Split(s, sep, root, end, size);
      StartsFrom(r, end) && Ordered(s, r) && CoveredFrom(s, sep, r, end)
    decreases |s| - end
  {
    var b := FindFirstNotOf(s, sep, end);
    var e := FindFirstOf(s, sep, b);
    var r := Split(s, sep, root, end, size);
    if e.At? {
      var x := Range(b, e);
      var rest := Split(s, sep, root, e.i, size + 1);
      assert r == [x] + rest;
      SplitOrder(s, sep, root, e.i, size + 1);
      OrderedCons(s, x, rest, e.i);
      CoveredCons(s, sep, x, rest, end, e.i);
      assert StartsFrom(r, end) by {
        forall k | 0 <= k < |r| && r[k].first.At?
          ensures end <= r[k].first.i
        {
          if k > 0 {
            assert r[k] == rest[k - 1];
          }
        }
      }
    } else if b.At? {
      assert r == [Range(b, e)];
      assert CoveredFrom(s, sep, r, end) by {
        forall j | end <= j < |s| && s[j] != sep
          ensures Covers(s, r[0], j)
        {
        }
      }
    }
  }

  /** A path's elements go left to right, each once, and every
      non-separator of the path lies in one of them. */
  lemma ElementsOrder(s: string, sep: char, root: bool)
    ensures var e := Elements(s, sep, root);
      Ordered(s, e) && CoveredFrom(s, sep, e, 0)
  {
    if |s| > 0 {
      if s[0] == sep {
        var x := Range(At(0), At(1));
        var rest := Split(s, sep, root, 1, 1);
        SplitOrder(s, sep, root, 1, 1);
        OrderedCons(s, x, rest, 1);
        CoveredCons(s, sep, x, rest, 0, 1);
      } else {
        SplitOrder(s, sep, root, 0, 0);
      }
    }
  }

  /** Two small paths: "a/b" splits into its two names; "/a/" with a
      root directory into the root, the name and the closing ".". */
  lemma ElementsExamples()
    ensures Elements("a/b", '/', false) == [Range(At(0), At(1)), Range(At(2), Npos)]
    ensures Elements("/a/", '/', true) == [Range(At(0), At(1)), Range(At(1), At(2)), Range(Npos, Npos)]
  {
    assert FindFirstOf("a/b", '/', At(0)) == At(1);
    assert FindFirstNotOf("a/b", '/', 1) == At(2);
    assert FindFirstOf("/a/", '/', At(1)) == At(2);
    assert FindFirstNotOf("/a/", '/', 2) == Npos;
  }

  /** What an element is and what dereferencing it gives: the leading
      separator (first only), a run of non-separators that reads as the
      run, or the closing (npos, npos) pair (last only) that reads as ".". */
  predicate Kind(s: string, sep: char, x: Range, isFirst: bool, isLast: bool)
  {
    (isFirst && |s| > 0 && s[0] == sep && x == Range(At(0), At(1)) && ElementValue(s, x) == [sep])
    || (Component(s, sep, x) && ElementValue(s, x) == s[x.first.i..End(s, x)]
        && ElementValue(s, x) != [] && sep !in ElementValue(s, x))
    || (isLast && x == Range(Npos, Npos) && ElementValue(s, x) == ".")
  }

  /** Element k of a path's list e, as Kind describes it. */
  predicate ElementOk(s: string, sep: char, e: seq<Range>, k: nat)
    requires k < |e|
  {
    Kind(s, sep, e[k], k == 0, k == |e| - 1)
  }

  /** The element list of a path: empty exactly for the empty path; a
      leading separator is the element (0, 1); every other element is a
      run of non-separators that reads as that run, except a closing
      (npos, npos) that reads as "."; splitting goes on after an element
      exactly while it ends at a separator. There are at most one more
      elements than characters. */
  lemma ElementsShape(s: string, sep: char, root: bool)
    ensures var e := Elements(s, sep, root);
      (e == [] <==> |s| == 0) && |e| <= |s| + 1
      && (|s| > 0 && s[0] == sep ==> e[0] == Range(At(0), At(1)))
      && (forall k :: 0 <= k < |e| ==> ElementOk(s, sep, e, k))
      && (forall k :: 0 < k < |e| - 1 ==> e[k].second.At?)
      && Ordered(s, e) && CoveredFrom(s, sep, e, 0)
  {
    ElementsOrder(s, sep, root);
    var e := Elements(s, sep, root);
    if |s| > 0 {
      var lead := if s[0] == sep then 1 else 0;
      SplitShape(s, sep, root, lead, lead);
      assert e == (if lead == 1 then [Range(At(0), At(1))] else []) + Split(s, sep, root, lead, lead);
      forall k | 0 <= k < |e|
        ensures ElementOk(s, sep, e, k) && (0 < k < |e| - 1 ==> e[k].second.At?)
      {
        ElementAt(s, sep, root, k);
      }
    }
  }

  /** One element of a path's list, as ElementsShape describes it. */
  lemma ElementAt(s: string, sep: char, root: bool, k: nat)
    requires k < |Elements(s, sep, root)|
    ensures var e := Elements(s, sep, root);
      ElementOk(s, sep, e, k) && (0 < k < |e| - 1 ==> e[k].second.At?)
  {
    if s[0] == sep {
      if k == 0 {
        LeadValue(s, sep);
      } else {
        LaterElementAt(s, sep, root, k);
      }
    } else {
      var e := Elements(s, sep, root);
      SplitShape(s, sep, root, 0, 0);
      RunOk(s, sep, e, k, e[k], k == 0 && s[0] == sep, k == |e| - 1);
    }
  }

  /** The leading separator reads as itself. */
  lemma LeadValue(s: string, sep: char)
    requires |s| > 0 && s[0] == sep
    ensures ElementValue(s, Range(At(0), At(1))) == [sep]
  {
    assert ElementValue(s, Range(At(0), At(1))) == s[0..1];
  }

  /** An element after the leading separator is element k - 1 of the
      rounds from offset 1. */
  lemma LaterElementAt(s: string, sep: char, root: bool, k: nat)
    requires |s| > 0 && s[0] == sep && 0 < k < |Elements(s, sep, root)|
    ensures var e := Elements(s, sep, root);
      ElementOk(s, sep, e, k) && (k < |e| - 1 ==> e[k].second.At?)
  {
    var e := Elements(s, sep, root);
    var r := Split(s, sep, root, 1, 1);
    assert e == [Range(At(0), At(1))] + r;
    assert e[k] == r[k - 1];
    SplitShape(s, sep, root, 1, 1);
    RunOk(s, sep, r, k - 1, e[k], k == 0, k == |e| - 1);
  }

  /** Element k of the rounds: a run, or the closing (npos, npos) last. */
  lemma RunOk(s: string, sep: char, r: seq<Range>, k: nat, x: Range, isFirst: bool, isLast: bool)
    requires Runs(s, sep, r) && k < |r|
    requires x == r[k] && !isFirst && isLast == (k == |r| - 1)
    ensures Kind(s, sep, x, isFirst, isLast)
  {
    if Component(s, sep, x) {
      ComponentValue(s, sep, x);
    }
  }

  /** Dereferencing a run reads exactly the run. */
  lemma ComponentValue(s: string, sep: char, r: Range)
    requires Component(s, sep, r)
    ensures ElementValue(s, r) == s[r.first.i..End(s, r)]
    ensures ElementValue(s, r) != [] && sep !in ElementValue(s, r)
  {
    var v := ElementValue(s, r);
    assert v == s[r.first.i..End(s, r)];
    forall j | 0 <= j < |v|
      ensures v[j] != sep
    {
      assert v[j] == s[r.first.i + j];
    }
  }

  /** A root-only path, all separators: with a root directory its list is
      the single element (0, 1), the closing (npos, npos) dropped; without
      one that pair follows. */
  lemma RootOnly(s: string, sep: char)
    requires |s| > 0 && forall i :: 0 <= i < |s| ==> s[i] == sep
    ensures Elements(s, sep, true) == [Range(At(0), At(1))]
    ensures Elements(s, sep, false) == [Range(At(0), At(1)), Range(Npos, Npos)]
  {
    assert FindFirstNotOf(s, sep, 1) == Npos;
  }

  /** From a point where nothing will be dropped any more, a string
      ending in a separator closes with (npos, npos). */
  lemma {:induction false} SplitTrailing(s: string, sep: char, root: bool, end: nat, size: nat)
    requires end <= |s| && |s| > 0 && s[|s| - 1] == sep
    requires size >= 2 || !root
    ensures var r := Split(s, sep, root, end, size);
      r != [] && r[|r| - 1] == Range(Npos, Npos)
    decreases |s| - end
  {
    var b := FindFirstNotOf(s, sep, end);
    var e := FindFirstOf(s, sep, b);
    if e.At? {
      var r := Split(s, sep, root, end, size);
      assert r == [Range(b, e)] + Split(s, sep, root, e.i, size + 1);
      SplitTrailing(s, sep, root, e.i, size + 1);
    }
  }

  /** A trailing separator, in a path that is not root-only, gives a last
      element (npos, npos) that dereferences to ".". */
  lemma TrailingSeparator(s: string, sep: char, root: bool)
    requires |s| > 0 && s[|s| - 1] == sep
    requires !root || (s[0] == sep && exists i :: 0 <= i < |s| && s[i] != sep)
    ensures var e := Elements(s, sep, root);
      |e| >= 2 && e[|e| - 1] == Range(Npos, Npos) && ElementValue(s, e[|e| - 1]) == "."
  {
    var e := Elements(s, sep, root);
    if !root {
      if s[0] == sep {
        SplitTrailing(s, sep, root, 1, 1);
      } else {
        SplitTrailing(s, sep, root, 0, 0);
        SplitShape(s, sep, root, 0, 0);
        var r := Split(s, sep, root, 0, 0);
        assert r[0] != Range(Npos, Npos) by {
          assert FindFirstNotOf(s, sep, 0) == At(0);
        }
      }
    } else {
      var b := FindFirstNotOf(s, sep, 1);
      var e1 := FindFirstOf(s, sep, b);
      assert b.At? && e1.At?;
      assert Split(s, sep, root, 1, 1) == [Range(b, e1)] + Split(s, sep, root, e1.i, 2);
      SplitTrailing(s, sep, root, e1.i, 2);
    }
  }

  /** Without a trailing separator the rounds close with the final run,
      to the end of the string. */
  lemma {:induction false} SplitToEnd(s: string, sep: char, root: bool, end: nat, size: nat)
    requires end < |s| && s[|s| - 1] != sep
    ensures var r := Split(s, sep, root, end, size);
      r != [] && r[|r| - 1].first.At? && r[|r| - 1].second.Npos?
    decreases |s| - end
  {
    var b := FindFirstNotOf(s, sep, end);
    var e := FindFirstOf(s, sep, b);
    assert b.At?;
    if e.At? {
      var r := Split(s, sep, root, end, size);
      assert r == [Range(b, e)] + Split(s, sep, root, e.i, size + 1);
      SplitToEnd(s, sep, root, e.i, size + 1);
    }
  }

  /** A non-empty path that does not end in a separator ends with the run
      after its last separator, which its last element reads. */
  lemma NoTrailingSeparator(s: string, sep: char, root: bool)
    requires |s| > 0 && s[|s| - 1] != sep
    ensures var e := Elements(s, sep, root);
      e != [] && Component(s, sep, e[|e| - 1]) && e[|e| - 1].second.Npos?
      && ElementValue(s, e[|e| - 1]) == s[e[|e| - 1].first.i..]
  {
    ElementsShape(s, sep, root);
    var lead := if s[0] == sep then 1 else 0;
    SplitToEnd(s, sep, root, lead, lead);
    var e := Elements(s, sep, root);
    assert e[|e| - 1] == Split(s, sep, root, lead, lead)[|Split(s, sep, root, lead, lead)| - 1];
    assert ElementOk(s, sep, e, |e| - 1);
  }

  // ---------------------------------------------------------------------
  // create_element_value

  /** std::string::substr(pos, n): at most n characters from pos; pos
      past the end throws. */
  function Substr(s: string, pos: nat, n: nat): (r: string)
    requires pos <= |s|
    ensures |r| <= n && |r| <= |s| - pos && r == s[pos..pos + |r|]
    ensures pos + n <= |s| ==> |r| == n
    ensures pos + n > |s| ==> r == s[pos..]
  {
    if n <= |s| - pos then s[pos..pos + n] else s[pos..]
  }

  /** create_element_value's text for one element: the characters from
      first up to second (a size_t difference), or to the end of the
      string when second is npos; "." when first is npos. */
  function ElementValue(s: string, r: Range): (v: string)
    requires r.first.At? ==> r.first.i <= |s|
    ensures r.first.Npos? ==> v == "."
    ensures r.first.At? ==> |v| <= |s| - r.first.i && v == s[r.first.i..r.first.i + |v|]
    ensures r.first.At? && r.second.Npos? ==> v == s[r.first.i..]
    ensures r.first.At? && r.second.At? && r.first.i <= r.second.i <= |s| ==> v == s[r.first.i..r.second.i]
  {
    if r.first.At? then
      if r.second.At? then
        var n := if r.second.i >= r.first.i then r.second.i - r.first.i
                 else (r.second.i - r.first.i) % SizeLimit;
        Substr(s, r.first.i, n)
      else
        Substr(s, r.first.i, |s| - r.first.i)
    else
      "."
  }

  // ---------------------------------------------------------------------
  // The iterator

  /** ++cursor and --cursor on a std::size_t. */
  function NextCursor(c: nat): (r: nat)
    ensures r < SizeLimit
  {
    (c + 1) % SizeLimit
  }

  function PrevCursor(c: nat): (r: nat)
    ensures r < SizeLimit
  {
    (c - 1) % SizeLimit
  }

  /** ++ and -- undo each other on every cursor value, the wrap of -- from
      0 included; away from the wrap they move by exactly one. */
  lemma CursorInverse(c: nat)
    requires c < SizeLimit
    ensures PrevCursor(NextCursor(c)) == c && NextCursor(PrevCursor(c)) == c
    ensures c + 1 < SizeLimit ==> NextCursor(c) == c + 1
    ensures c > 0 ==> PrevCursor(c) == c - 1
    ensures PrevCursor(0) == SizeLimit - 1
  {
    if c + 1 == SizeLimit {
      assert NextCursor(c) == 0;
    }
  }

  class PathIterator {
    var underlying: Path?
    var elements: seq<Range>
    var cursor: nat
    var elementValue: string

    /** The elements are those of the underlying path (none without one),
        and the cursor is a std::size_t. */
    predicate Valid()
      reads this
    {
      cursor < SizeLimit
      && (underlying == null ==> elements == [])
      && (underlying != null ==>
            underlying.Valid() && elements == Elements(underlying.str, underlying.sep, underlying.rootDir))
    }

    /** path_iterator(): over no path, cursor 0. */
    constructor ()
      ensures underlying == null && elements == [] && cursor == 0 && elementValue == []
      ensures Valid()
    {
      underlying := null;
      elements := [];
      cursor := 0;
      elementValue := [];
    }

    /** path_iterator(p, state): over p, at its first element
        (set_to_begin) or one past its last (set_to_end). */
    constructor Over(p: Path, toEnd: bool)
      requires p.Valid()
      ensures underlying == p && elements == Elements(p.str, p.sep, p.rootDir)
      ensures cursor == if toEnd then |elements| else 0
      ensures elementValue == []
      ensures Valid()
    {
      var elems := BuildElements(p);
      ElementsShape(p.str, p.sep, p.rootDir);
      underlying := p;
      elements := elems;
      cursor := if toEnd then |elems| else 0;
      elementValue := [];
    }

    /** The copy constructor. */
    constructor Copy(other: PathIterator)
      requires other.Valid()
      ensures underlying == other.underlying && elements == other.elements
      ensures cursor == other.cursor && elementValue == other.elementValue
      ensures Valid()
    {
      underlying := other.underlying;
      elements := other.elements;
      cursor := other.cursor;
      elementValue := other.elementValue;
    }

    /** Copy assignment: take every field of other; assigning an iterator
        to itself changes nothing. */
    method Assign(other: PathIterator)
      requires other.Valid()
      modifies this
      ensures underlying == old(other.underlying) && elements == old(other.elements)
      ensures cursor == old(other.cursor) && elementValue == old(other.elementValue)
      ensures Valid()
    {
      if this != other {
        underlying := other.underlying;
        elements := other.elements;
        cursor := other.cursor;
        elementValue := other.elementValue;
      }
    }

    /** operator==: the same path and the same cursor. Equal valid
        iterators hold the same elements, so they dereference alike. */
    function Equals(other: PathIterator): (r: bool)
      reads this, other
      ensures r <==> underlying == other.underlying && cursor == other.cursor
      ensures r && Valid() && other.Valid() ==> elements == other.elements
    {
      underlying == other.underlying && cursor == other.cursor
    }

    /** operator!= */
    function NotEquals(other: PathIterator): (r: bool)
      reads this, other
      ensures r <==> !(underlying == other.underlying && cursor == other.cursor)
    {
      !Equals(other)
    }

    /** Prefix ++: the cursor moves on by one; nothing else changes. */
    method Increment()
      requires Valid()
      modifies this
      ensures cursor == NextCursor(old(cursor))
      ensures underlying == old(underlying) && elements == old(elements)
      ensures elementValue == old(elementValue)
      ensures Valid()
    {
      cursor := (cursor + 1) % SizeLimit;
    }

    /** Prefix --: the cursor moves back by one, from 0 to the largest
        std::size_t; nothing else changes. */
    method Decrement()
      requires Valid()
      modifies this
      ensures cursor == PrevCursor(old(cursor))
      ensures underlying == old(underlying) && elements == old(elements)
      ensures elementValue == old(elementValue)
      ensures Valid()
    {
      cursor := (cursor - 1) % SizeLimit;
    }

    /** Postfix ++: a copy of the iterator as it was, this one moved on. */
    method PostIncrement() returns (tmp: PathIterator)
      requires Valid()
      modifies this
      ensures fresh(tmp) && tmp.Valid()
      ensures tmp.underlying == old(underlying) && tmp.elements == old(elements)
      ensures tmp.cursor == old(cursor) && tmp.elementValue == old(elementValue)
      ensures cursor == NextCursor(old(cursor))
      ensures underlying == old(underlying) && elements == old(elements)
      ensures elementValue == old(elementValue)
      ensures Valid()
    {
      tmp := new PathIterator.Copy(this);
      Increment();
    }

    /** Postfix --: a copy of the iterator as it was, this one moved back. */
    method PostDecrement() returns (tmp: PathIterator)
      requires Valid()
      modifies this
      ensures fresh(tmp) && tmp.Valid()
      ensures tmp.underlying == old(underlying) && tmp.elements == old(elements)
      ensures tmp.cursor == old(cursor) && tmp.elementValue == old(elementValue)
      ensures cursor == PrevCursor(old(cursor))
      ensures underlying == old(underlying) && elements == old(elements)
      ensures elementValue == old(elementValue)
      ensures Valid()
    {
      tmp := new PathIterator.Copy(this);
      Decrement();
    }

    /** operator* and operator->, through create_element_value: the text
        of the element under the cursor, kept in element_value. A cursor
        outside the list makes elements.at throw (None here), before
        anything is changed. */
    method Deref() returns (v: Option<string>)
      requires Valid()
      modifies this
      ensures underlying == old(underlying) && elements == old(elements) && cursor == old(cursor)
      ensures Valid()
      ensures cursor >= |elements| ==> v == None && elementValue == old(elementValue)
      ensures cursor < |elements| ==>
        v == Some(elementValue) && ElementOk(underlying.str, underlying.sep, elements, cursor)
        && elementValue == ElementValue(underlying.str, elements[cursor])
    {
      if cursor >= |elements| {
        return None;
      }
      var r := elements[cursor];
      var s := underlying.str;
      ElementsShape(s, underlying.sep, underlying.rootDir);
      assert ElementOk(s, underlying.sep, elements, cursor);
      elementValue := ElementValue(s, r);
      v := Some(elementValue);
    }
  }

  /** The begin and end iterators of a path compare equal exactly when the
      path is empty. */
  lemma BeginEqualsEnd(a: PathIterator, b: PathIterator)
    requires a.Valid() && b.Valid() && a.underlying != null && b.underlying == a.underlying
    requires a.cursor == 0 && b.cursor == |b.elements|
    ensures a.Equals(b) <==> |a.underlying.str| == 0
  {
    ElementsShape(a.underlying.str, a.underlying.sep, a.underlying.rootDir);
  }
}
