/** `andwass::string_view`: a non-owning (pointer, length) view of characters
    held in caller-owned storage. Out-of-range offsets are clamped, never an
    error. The storage is one immutable address space `mem`; a pointer is an
    offset into it, or null. */
module Andwass {
  import opened Text

  /** The caller-owned storage every view points into. */
  type Memory = seq<char>

  const NUL: char := '\0'

  /** A `const char*`: null, or the address of a character cell. */
  datatype Ptr = Null | Addr(off: nat)
  {
    /** Pointer arithmetic `p + k`; only `nullptr + 0` is defined on null. */
    function Plus(k: nat): (q: Ptr)
      requires Addr? || k == 0
      ensures q.Null? == Null?
    {
      match this
      case Null => Null
      case Addr(o) => Addr(o + k)
    }

    /** Pointer difference `this - q` of two pointers into the same storage:
        when it is not negative, it is the step that leads from `q` to `this`. */
    function Minus(q: Ptr): (d: int)
      requires Null? == q.Null?
      ensures Null? ==> d == 0
      ensures d >= 0 ==> q.Plus(d) == this
    {
      match this
      case Null => 0
      case Addr(o) => o - q.off
    }
  }

  /** The value of a `string_view`: `data_` and `size_`. */
  datatype View = View(data: Ptr, size: nat)
  {
    /** A null view is empty, and no size reaches `npos`. */
    predicate WellFormed()
    {
      (data.Null? ==> size == 0) && size < NPOS
    }

    /** The `size` cells from `data` lie inside `mem`. */
    predicate Valid(mem: Memory)
    {
      WellFormed() && (data.Addr? ==> data.off + size <= |mem|)
    }

    /** The characters the view refers to. */
    function Contents(mem: Memory): (s: seq<char>)
      requires Valid(mem)
      ensures |s| == size
    {
      if data.Null? then [] else mem[data.off..data.off + size]
    }

    function Begin(): Ptr
    {
      data
    }

    function End(): Ptr
      requires WellFormed()
    {
      data.Plus(size)
    }

    function IsEmpty(): bool
    {
      size == 0
    }

    /** `size`, `is_empty`, `begin` and `end` agree with the contents. */
    lemma Accessors(mem: Memory)
      requires Valid(mem)
      ensures IsEmpty() <==> Contents(mem) == []
      ensures End().Null? <==> Begin().Null?
      ensures Begin().Addr? ==> End().off - Begin().off == |Contents(mem)|
      ensures Begin().Addr? ==> Contents(mem) == mem[Begin().off..End().off]
    {
    }

    /** `front()`; undefined on an empty view, hence the precondition. */
    function Front(mem: Memory): (c: char)
      requires Valid(mem) && size > 0
      ensures c == Contents(mem)[0]
    {
      mem[data.off]
    }

    /** `back()`; undefined on an empty view, hence the precondition. */
    function Back(mem: Memory): (c: char)
      requires Valid(mem) && size > 0
      ensures c == Contents(mem)[|Contents(mem)| - 1]
    {
      mem[data.off + size - 1]
    }

    /** `operator[]`; undefined out of range, hence the precondition. */
    function At(mem: Memory, index: nat): (c: char)
      requires Valid(mem) && index < size
      ensures c == Contents(mem)[index]
    {
      mem[data.off + index]
    }

    // -------------------------------------------------------------------------
    // Substrings and trimming

    /** `substr(pos, count)`: never fails. A `pos` at or past the end gives the
        empty view at `end()`; otherwise the view starts `pos` characters in and
        is `count` long, cut short at the end of this view. */
    function Substr(pos: nat, count: nat := NPOS): (r: View)
      requires WellFormed()
      ensures r.WellFormed()
      ensures r.Begin() == Begin().Plus(Min(pos, size))
      ensures r.size == Min(count, size - Min(pos, size))
      ensures Min(pos, size) + r.size <= size
      ensures pos >= size ==> r.IsEmpty() && r.Begin() == End()
      ensures count >= size ==> r.End() == End()
    {
      if pos >= size then View(End(), 0)
      else View(data.Plus(pos), Min(count, size - pos))
    }

    /** What `Substr` refers to: the slice of this view's contents that starts
        at the clamped `pos`. */
    lemma SubstrContents(mem: Memory, pos: nat, count: nat)
      requires Valid(mem)
      ensures var p := Min(pos, size);
              var r := Substr(pos, count);
              r.Valid(mem) && r.Contents(mem) == Contents(mem)[p..p + r.size]
    {
      var p := Min(pos, size);
      var r := Substr(pos, count);
      if data.Addr? {
        SliceOfSlice(mem, data.off, data.off + size, p, p + r.size);
      }
    }

    /** Cutting a view at `k` and putting the two halves back together gives
        the view's characters again: what `remove_prefix` and `remove_suffix`
        cut off and what they keep are adjacent and cover the whole. */
    lemma SplitContents(mem: Memory, k: nat)
      requires Valid(mem)
      ensures Substr(0, k).Valid(mem) && Substr(k).Valid(mem)
      ensures Substr(0, k).End() == Substr(k).Begin()
      ensures Substr(0, k).Contents(mem) + Substr(k).Contents(mem) == Contents(mem)
    {
      var s, p := Contents(mem), Min(k, size);
      var front, back := Substr(0, k), Substr(k);
      assert front.Valid(mem) && front.Contents(mem) == s[..p] by {
        SubstrContents(mem, 0, k);
        assert front.size == p;
      }
      assert back.Valid(mem) && back.Contents(mem) == s[p..] by {
        SubstrContents(mem, k, NPOS);
        assert back.size == size - p;
      }
      assert front.End() == back.Begin();
      assert s == s[..p] + s[p..];
    }

    /** `substr_starting_with(needle)`: the rest of the view from the first
        occurrence of `needle`, or the empty view at `end()` when there is none. */
    function SubstrStartingWith(mem: Memory, needle: View): (r: View)
      requires Valid(mem) && needle.Valid(mem)
      ensures r.Valid(mem) && r.End() == End()
      ensures var k := FirstOf(Contents(mem), needle.Contents(mem));
              if k == NPOS then r.IsEmpty() && r.Begin() == End()
              else r.Begin() == Begin().Plus(k) && r.Contents(mem) == Contents(mem)[k..]
    {
      var k := FirstOf(Contents(mem), needle.Contents(mem));
      assert k != NPOS ==> k <= size by { FirstOfSpec(Contents(mem), needle.Contents(mem)); }
      var r := Substr(k);
      assert r.Valid(mem) && (k <= size ==> r.Contents(mem) == Contents(mem)[k..]) by {
        SubstrContents(mem, k, NPOS);
      }
      r
    }

    /** The view `substr_starting_with` gives starts with the needle exactly
        when the needle occurs at all. */
    lemma SubstrStartingWithStarts(mem: Memory, needle: View)
      requires Valid(mem) && needle.Valid(mem)
      ensures SubstrStartingWith(mem, needle).StartsWith(mem, needle) <==> Contains(mem, needle)
    {
      var s, t := Contents(mem), needle.Contents(mem);
      var k := FirstOf(s, t);
      var r := SubstrStartingWith(mem, needle);
      FirstOfSpec(s, t);
      if k != NPOS {
        assert r.Contents(mem)[..needle.size] == s[k..k + |t|];
      } else {
        assert !Occurs(s, t, 0);
        assert s[0..0] == [];
      }
    }

    // -------------------------------------------------------------------------
    // Prefix and suffix predicates

    /** `starts_with(sv)`: `sv` is a prefix of this view. */
    function StartsWith(mem: Memory, sv: View): (b: bool)
      requires Valid(mem) && sv.Valid(mem)
      ensures b <==> sv.size <= size && Contents(mem)[..sv.size] == sv.Contents(mem)
    {
      SubstrContents(mem, 0, sv.size);
      Substr(0, sv.size).Equals(mem, sv)
    }

    /** `ends_with(sv)`: `sv` is a suffix of this view; false, not undefined,
        when `sv` is the longer one. */
    function EndsWith(mem: Memory, sv: View): (b: bool)
      requires Valid(mem) && sv.Valid(mem)
      ensures b <==> sv.size <= size && Contents(mem)[size - sv.size..] == sv.Contents(mem)
    {
      if size >= sv.size then
        var tail := Substr(size - sv.size);
        assert tail.Valid(mem) && tail.Contents(mem) == Contents(mem)[size - sv.size..] by {
          SubstrContents(mem, size - sv.size, NPOS);
        }
        tail.Equals(mem, sv)
      else false
    }

    // -------------------------------------------------------------------------
    // Searching

    /** `find(char)`: the first index holding `ch`, or NPOS. */
    method FindChar(mem: Memory, ch: char) returns (k: nat)
      requires Valid(mem)
      ensures k != NPOS <==> ch in Contents(mem)
      ensures k != NPOS ==> k < size && Contents(mem)[k] == ch && ch !in Contents(mem)[..k]
      ensures k == FirstOf(Contents(mem), [ch])
    {
      ghost var s := Contents(mem);
      var i: nat := 0;
      while i < size
        invariant i <= size
        invariant ch !in s[..i]
      {
        if At(mem, i) == ch {
          CharSearch(s, ch, i);
          return i;
        }
        assert s[..i + 1] == s[..i] + [s[i]];
        i := i + 1;
      }
      assert s[..i] == s;
      CharSearch(s, ch, NPOS);
      return NPOS;
    }

    /** `rfind(char)`: the last index holding `ch`, or NPOS. */
    method RFindChar(mem: Memory, ch: char) returns (k: nat)
      requires Valid(mem)
      ensures k != NPOS <==> ch in Contents(mem)
      ensures k != NPOS ==> k < size && Contents(mem)[k] == ch && ch !in Contents(mem)[k + 1..]
      ensures k == LastOf(Contents(mem), [ch])
    {
      ghost var s := Contents(mem);
      var i: nat := size;
      while i > 0
        invariant i <= size
        invariant ch !in s[i..]
      {
        if At(mem, i - 1) == ch {
          CharSearchBack(s, ch, i - 1);
          return i - 1;
        }
        assert s[i - 1..] == [s[i - 1]] + s[i..];
        i := i - 1;
      }
      CharSearchBack(s, ch, NPOS);
      return NPOS;
    }

    /** `find(needle)`: the first occurrence of `needle`. An empty needle is
        found at 0 and a needle longer than the view is not found. Each
        candidate's first character is checked before the whole needle. */
    method Find(mem: Memory, needle: View) returns (k: nat)
      requires Valid(mem) && needle.Valid(mem)
      ensures k == FirstOf(Contents(mem), needle.Contents(mem))
      ensures needle.IsEmpty() ==> k == 0
      ensures needle.size > size ==> k == NPOS
    {
      ghost var s, t := Contents(mem), needle.Contents(mem);
      if needle.IsEmpty() {
        return 0;
      } else if size == needle.size {
        assert FirstFrom(s, t, 1) == NPOS;
        return if Equals(mem, needle) then 0 else NPOS;
      } else if size > needle.size {
        var end := End();
        var first := needle.Front(mem);
        var searchSize := size - needle.size + 1;
        var i: nat := 0;
        while i < searchSize
          invariant i <= searchSize
          invariant FirstFrom(s, t, i) == FirstOf(s, t)
        {
          var hit := CandidateAt(mem, needle, first, end, i);
          if hit {
            return i;
          }
          i := i + 1;
        }
      }
      return NPOS;
    }

    /** `rfind(needle)`: the last occurrence of `needle`; an empty needle is
        found at `size()`, the end of the view. */
    method RFind(mem: Memory, needle: View) returns (k: nat)
      requires Valid(mem) && needle.Valid(mem)
      ensures k == LastOf(Contents(mem), needle.Contents(mem))
      ensures needle.IsEmpty() ==> k == size
      ensures needle.size > size ==> k == NPOS
    {
      ghost var s, t := Contents(mem), needle.Contents(mem);
      if needle.IsEmpty() {
        assert Occurs(s, t, size);
        return size;
      } else if size == needle.size {
        assert LastBelow(s, t, 0) == NPOS;
        return if Equals(mem, needle) then 0 else NPOS;
      } else if size > needle.size {
        var end := End();
        var first := needle.Front(mem);
        var i: nat := size - needle.size + 1;
        while i > 0
          invariant i <= size - needle.size + 1
          invariant LastBelow(s, t, i) == LastOf(s, t)
        {
          var hit := CandidateAt(mem, needle, first, end, i - 1);
          if hit {
            return i - 1;
          }
          i := i - 1;
        }
      }
      return NPOS;
    }

    /** The test both searches make at index `i`: the character there is the
        needle's first (`first`, read once before the loop) and the view from
        `i` to `end` (also read once) starts with the needle. It holds exactly
        at the occurrences of the needle. */
    method CandidateAt(mem: Memory, needle: View, first: char, end: Ptr, i: nat) returns (b: bool)
      requires Valid(mem) && needle.Valid(mem) && needle.size > 0 && i < size
      requires first == needle.Front(mem) && end == End()
      ensures b <==> Occurs(Contents(mem), needle.Contents(mem), i)
    {
      MatchAt(Contents(mem), needle.Contents(mem), i);
      b := At(mem, i) == first && SuffixAt(mem, i, data.Plus(i), end).StartsWith(mem, needle);
    }

    /** `string_view(data_ + i, end())` inside the searches: the view of this
        view's contents from index `i` on. */
    function SuffixAt(mem: Memory, i: nat, begin: Ptr, end: Ptr): (r: View)
      requires Valid(mem) && i < size && begin == data.Plus(i) && end == End()
      ensures r.Valid(mem) && r.Contents(mem) == Contents(mem)[i..]
    {
      SubstrContents(mem, i, NPOS);
      FromRange(begin, end)
    }

    /** The outcome of one round of `find_nth`'s loop, whose haystack is the
        part of this view that starts `start` characters in. */
    lemma NthRound(mem: Memory, needle: View, start: nat, m: nat, found: nat)
      requires Valid(mem) && needle.Valid(mem) && start <= size && needle.size <= size - start
      requires View(data.Plus(start), size - start).Valid(mem)
      requires found == FirstOf(View(data.Plus(start), size - start).Contents(mem), needle.Contents(mem))
      ensures var s, t := Contents(mem), needle.Contents(mem);
              && (found == NPOS ==> NthFrom(s, t, start, m) == NPOS)
              && (found != NPOS && m == 0 ==> NthFrom(s, t, start, m) == start + found)
              && (found != NPOS && m > 0 ==>
                    NthFrom(s, t, start, m) == NthFrom(s, t, Min(start + found + 1, size), m - 1))
    {
      var s, t := Contents(mem), needle.Contents(mem);
      var rest := View(data.Plus(start), size - start);
      assert rest.Contents(mem) == s[start..] by {
        SubstrContents(mem, start, NPOS);
        assert rest == Substr(start);
      }
      assert |s| == size;
      NthFromRound(s, t, start, m, found);
    }

    /** The `find` of one round of `find_nth`'s loop, on the part of this view
        that starts `start` characters in, with `m` more rounds to go before
        the answer `goal`. */
    method NthRoundFind(mem: Memory, needle: View, rest: View, ghost start: nat, ghost m: nat, ghost goal: nat)
      returns (found: nat, ghost next: nat)
      requires Valid(mem) && needle.Valid(mem) && start <= size && needle.size <= size - start
      requires rest == View(data.Plus(start), size - start)
      requires NthFrom(Contents(mem), needle.Contents(mem), start, m) == goal
      ensures found == NPOS ==> goal == NPOS
      ensures found != NPOS && m == 0 ==> goal == start + found
      ensures found != NPOS && m > 0 ==>
                next == Min(start + found + 1, size) && NthFrom(Contents(mem), needle.Contents(mem), next, m - 1) == goal
    {
      assert rest.Valid(mem);
      found := rest.Find(mem, needle);
      NthRound(mem, needle, start, m, found);
      next := Min(start + found + 1, size);
    }

    /** `haystack.remove_prefix(found + 1)` in `find_nth`'s loop: the haystack,
        the part of this view that starts `start` characters in, moves on to
        the part that starts at `next`. */
    method NthAdvance(haystack: StringView, ghost start: nat, k: nat, ghost next: nat)
      requires WellFormed() && start <= size && next == Min(start + k, size)
      requires haystack.Value() == View(data.Plus(start), size - start)
      modifies haystack
      ensures haystack.Value() == View(data.Plus(next), size - next)
    {
      var removed := haystack.RemovePrefix(k);
    }

    /** `find_nth(needle, n)`: repeated `find`s on a local copy of the view,
        each restarting one character past the start of the previous match, so
        overlapping occurrences count. */
    method FindNth(mem: Memory, needle: View, n: nat) returns (k: nat)
      requires Valid(mem) && needle.Valid(mem)
      ensures k == NthFrom(Contents(mem), needle.Contents(mem), 0, n)
    {
      ghost var goal := NthFrom(Contents(mem), needle.Contents(mem), 0, n);
      var haystack := new StringView(this);
      ghost var start: nat, m: nat := 0, n;
      var i: nat := 0;
      while i <= n && haystack.size >= needle.size
        invariant i <= n && m == n - i && start <= size
        invariant haystack.data == data.Plus(start) && haystack.size == size - start
        invariant NthFrom(Contents(mem), needle.Contents(mem), start, m) == goal
        decreases n - i
      {
        var found, next := NthRoundFind(mem, needle, haystack.Value(), start, m, goal);
        if found == NPOS {
          return NPOS;
        } else if i == n {
          assert haystack.data.Minus(data) == start;
          return haystack.data.Minus(data) + found;
        }
        NthAdvance(haystack, start, found + 1, next);
        start, m := next, m - 1;
        i := i + 1;
      }
      assert goal == NPOS by { NthFromStep(Contents(mem), needle.Contents(mem), start, m); }
      return NPOS;
    }

    /** `contains(needle)`: `find(needle) != npos`. */
    function Contains(mem: Memory, needle: View): (b: bool)
      requires Valid(mem) && needle.Valid(mem)
      ensures b <==> exists j: nat :: Occurs(Contents(mem), needle.Contents(mem), j)
    {
      FirstOfSpec(Contents(mem), needle.Contents(mem));
      FirstOf(Contents(mem), needle.Contents(mem)) != NPOS
    }

    /** `contains(char)`: `find(ch) != npos`. */
    function ContainsChar(mem: Memory, ch: char): (b: bool)
      requires Valid(mem)
      ensures b <==> ch in Contents(mem)
    {
      FirstOfChar(Contents(mem), ch);
      FirstOf(Contents(mem), [ch]) != NPOS
    }

    // -------------------------------------------------------------------------
    // Comparison

    /** `compare(right)`: -1, 0 or 1 by lexicographic order; the loop compares
        the common length, then the sizes decide. */
    method Compare(mem: Memory, right: View) returns (r: int)
      requires Valid(mem) && right.Valid(mem)
      ensures r == Lex(Contents(mem), right.Contents(mem))
      ensures r == -1 || r == 0 || r == 1
      ensures r == 0 <==> Contents(mem) == right.Contents(mem)
    {
      ghost var a, b := Contents(mem), right.Contents(mem);
      var toCheck := Min(size, right.size);
      var memcmp := 0;
      var i: nat := 0;
      while i < toCheck && memcmp == 0
        invariant i <= toCheck
        invariant memcmp == 0 ==> LexFrom(a, b, i) == Lex(a, b)
        invariant memcmp != 0 ==> memcmp == Lex(a, b)
      {
        if At(mem, i) < right.At(mem, i) {
          memcmp := -1;
        } else if At(mem, i) > right.At(mem, i) {
          memcmp := 1;
        }
        i := i + 1;
      }
      if memcmp == 0 {
        if size < right.size {
          r := -1;
        } else if size > right.size {
          r := 1;
        } else {
          r := 0;
        }
      } else {
        r := memcmp;
      }
    }

    /** `operator==`: views of different sizes are never equal; otherwise the
        comparison decides. */
    function Equals(mem: Memory, other: View): (b: bool)
      requires Valid(mem) && other.Valid(mem)
      ensures b <==> Contents(mem) == other.Contents(mem)
      ensures size != other.size ==> !b
    {
      if size != other.size then false
      else Lex(Contents(mem), other.Contents(mem)) == 0
    }

    /** `operator!=`. */
    function NotEquals(mem: Memory, other: View): (b: bool)
      requires Valid(mem) && other.Valid(mem)
      ensures b <==> Contents(mem) != other.Contents(mem)
    {
      !Equals(mem, other)
    }
  }

  /** A slice of a slice is a slice of the whole. */
  lemma SliceOfSlice(s: seq<char>, lo: nat, hi: nat, i: nat, j: nat)
    requires lo <= hi <= |s| && i <= j <= hi - lo
    ensures s[lo..hi][i..j] == s[lo + i..lo + j]
  {
    assert forall k :: 0 <= k < j - i ==> s[lo..hi][i..j][k] == s[lo + i + k];
  }

  /** The first `ch` found is where a one-character search lands. */
  lemma CharSearch(s: seq<char>, ch: char, k: nat)
    requires |s| < NPOS
    requires k == NPOS ==> ch !in s
    requires k != NPOS ==> k < |s| && s[k] == ch && ch !in s[..k]
    ensures k == FirstOf(s, [ch])
    ensures k != NPOS <==> ch in s
  {
    forall j: nat
      ensures Occurs(s, [ch], j) <==> j < |s| && s[j] == ch
    {
      OccursChar(s, ch, j);
    }
    if k != NPOS {
      forall j: nat | j < k
        ensures s[j] != ch
      {
        assert s[..k][j] == s[j];
      }
    }
    FirstOfUnique(s, [ch], k);
  }

  /** The last `ch` found is where a one-character backward search lands. */
  lemma CharSearchBack(s: seq<char>, ch: char, k: nat)
    requires |s| < NPOS
    requires k == NPOS ==> ch !in s
    requires k != NPOS ==> k < |s| && s[k] == ch && ch !in s[k + 1..]
    ensures k == LastOf(s, [ch])
    ensures k != NPOS <==> ch in s
  {
    forall j: nat
      ensures Occurs(s, [ch], j) <==> j < |s| && s[j] == ch
    {
      OccursChar(s, ch, j);
    }
    if k != NPOS {
      forall j: nat | k < j < |s|
        ensures s[j] != ch
      {
        assert s[k + 1..][j - k - 1] == s[j];
      }
    }
    LastOfUnique(s, [ch], k);
  }

  // ---------------------------------------------------------------------------
  // Construction

  /** Default construction: `data()` is null and `size()` is 0. */
  function Default(): (r: View)
    ensures r.Begin().Null? && r.IsEmpty()
    ensures forall mem: Memory :: r.Valid(mem) && r.Contents(mem) == []
  {
    View(Null, 0)
  }

  /** Construction from a pointer and a length, stored verbatim: the view covers
      the `n` cells from `p`. A null pointer goes with length 0. */
  function FromPointer(p: Ptr, n: nat, ghost mem: Memory): (r: View)
    requires n < NPOS && (p.Null? ==> n == 0) && (p.Addr? ==> p.off + n <= |mem|)
    ensures r.Valid(mem) && r.Begin() == p && |r.Contents(mem)| == n
    ensures p.Addr? ==> r.Contents(mem) == mem[p.off..p.off + n]
  {
    View(p, n)
  }

  /** `operator""_sv`: a literal of known length at `p`. */
  function Literal(p: Ptr, len: nat, ghost mem: Memory): (r: View)
    requires len < NPOS && p.Addr? && p.off + len <= |mem|
    ensures r.Valid(mem) && r.Begin() == p && r.Contents(mem) == mem[p.off..p.off + len]
  {
    FromPointer(p, len, mem)
  }

  /** `std::strlen`: the number of characters before the first NUL at or after `off`. */
  function StrLen(mem: Memory, off: nat): (n: nat)
    requires exists k: nat :: off <= k < |mem| && mem[k] == NUL
    ensures off + n < |mem| && mem[off + n] == NUL
    ensures NUL !in mem[off..off + n]
    decreases |mem| - off
  {
    if mem[off] == NUL then 0
    else
      var n := 1 + StrLen(mem, off + 1);
      assert mem[off..off + n] == [mem[off]] + mem[off + 1..off + n];
      n
  }

  /** Construction from a NUL-terminated string: a null pointer gives the empty
      view, otherwise the view runs up to the terminator. */
  function FromCString(mem: Memory, p: Ptr): (r: View)
    requires |mem| < NPOS
    requires p.Addr? ==> exists k: nat :: p.off <= k < |mem| && mem[k] == NUL
    ensures r.Valid(mem) && r.Begin() == p
    ensures NUL !in r.Contents(mem)
    ensures p.Null? ==> r.IsEmpty()
    ensures p.Addr? ==> r.End().off < |mem| && mem[r.End().off] == NUL
  {
    if p.Null? then View(p, 0) else View(p, StrLen(mem, p.off))
  }

  /** Construction from two positions in the same storage: the view spans
      `[first, last)`. */
  function FromRange(first: Ptr, last: Ptr): (r: View)
    requires first.Null? == last.Null?
    requires first.Addr? ==> first.off <= last.off < first.off + NPOS
    ensures r.WellFormed() && r.Begin() == first && r.End() == last
    ensures r.size == last.Minus(first)
  {
    View(first, last.Minus(first))
  }

  // ---------------------------------------------------------------------------
  // A string_view variable, trimmed in place

  /** A `string_view` object whose `remove_prefix` and `remove_suffix` update
      its two fields and hand back the part that was cut off. */
  class StringView {
    var data: Ptr
    var size: nat

    function Value(): View
      reads this
    {
      View(data, size)
    }

    constructor (v: View)
      ensures Value() == v
    {
      data, size := v.data, v.size;
    }

    /** `remove_prefix(n)`: this view becomes `substr(n)`, so its start moves
        forward by `n` but never past the end; the part cut off, `substr(0, n)`,
        is returned. */
    method RemovePrefix(n: nat) returns (removed: View)
      requires Value().WellFormed()
      modifies this
      ensures removed == old(Value()).Substr(0, n) && Value() == old(Value()).Substr(n)
      ensures removed.Begin() == old(Value().Begin()) && removed.size == Min(n, old(size))
      ensures Value().Begin() == removed.End() && Value().End() == old(Value().End())
      ensures size == old(size) - removed.size
    {
      var v := Value();
      removed := v.Substr(0, n);
      var rest := v.Substr(n);
      data, size := rest.data, rest.size;
    }

    /** `remove_suffix(n)`: the end moves backward by `n` but never past the
        start, the start stays put, and the part cut off is returned. */
    method RemoveSuffix(n: nat) returns (removed: View)
      requires Value().WellFormed()
      modifies this
      ensures var keep := old(size) - Min(n, old(size));
              removed == old(Value()).Substr(keep) && Value() == old(Value()).Substr(0, keep)
      ensures data == old(data) && size == old(size) - Min(n, old(size))
      ensures removed.size == Min(n, old(size))
      ensures removed.Begin() == Value().End() && removed.End() == old(Value().End())
    {
      var m := Min(n, size);
      removed := Value().Substr(size - m);
      size := size - m;
    }
  }
}
