/** The scenarios of tests/string_view.cpp, stated over the model. String
    literals live side by side in one storage; each literal is a view at its
    offset. Each scenario takes its storage and its strings as parameters fixed
    by `requires`, so that the searches are reasoned about through their
    contracts rather than evaluated character by character. */
module StringViewTests {
  import opened Text
  import opened Andwass

  //                     0          11 14        24
  const Mem: Memory := "hello world" + "abc" + "helloworld"

  function HelloWorld(): View { View(Addr(0), 11) }
  function Hello(): View { View(Addr(0), 5) }
  function World(): View { View(Addr(6), 5) }
  function Abc(): View { View(Addr(11), 3) }
  function HelloNoSpace(): View { View(Addr(14), 10) }
  function EmptyLit(): View { View(Addr(24), 0) }

  lemma LiteralsValid(mem: Memory)
    requires mem == Mem
    ensures HelloWorld().Valid(mem) && HelloWorld().Contents(mem) == "hello world"
    ensures Hello().Valid(mem) && Hello().Contents(mem) == "hello"
    ensures World().Valid(mem) && World().Contents(mem) == "world"
    ensures Abc().Valid(mem) && Abc().Contents(mem) == "abc"
    ensures HelloNoSpace().Valid(mem) && HelloNoSpace().Contents(mem) == "helloworld"
    ensures EmptyLit().Valid(mem) && EmptyLit().Contents(mem) == ""
  {
  }

  // ---------------------------------------------------------------------------
  // Helpers for pinning down searches over concrete strings

  /** A position where one character differs from the needle's is no occurrence. */
  lemma Mismatch(s: seq<char>, needle: seq<char>, j: nat, q: nat)
    requires q < |needle| && j + q < |s| && s[j + q] != needle[q]
    ensures !Occurs(s, needle, j)
  {
    if j + |needle| <= |s| {
      assert s[j..j + |needle|][q] == s[j + q];
    }
  }

  /** A position where every character of the needle matches is an occurrence. */
  lemma Present(s: seq<char>, needle: seq<char>, j: nat)
    requires j + |needle| <= |s|
    requires forall q :: 0 <= q < |needle| ==> s[j + q] == needle[q]
    ensures Occurs(s, needle, j)
  {
    assert s[j..j + |needle|] == needle;
  }

  /** The scan moves past a position whose character is not the needle's first. */
  lemma FirstFromSkip(s: seq<char>, needle: seq<char>, i: nat)
    requires 0 < |needle| && i + |needle| <= |s| && s[i] != needle[0]
    ensures FirstFrom(s, needle, i) == FirstFrom(s, needle, i + 1)
  {
    assert s[i..i + |needle|][0] == s[i];
  }

  /** The scan from `i` finds nothing when no occurrence is left. */
  lemma FirstFromNone(s: seq<char>, needle: seq<char>, i: nat)
    requires |s| < NPOS
    requires forall j: nat :: i <= j ==> !Occurs(s, needle, j)
    ensures FirstFrom(s, needle, i) == NPOS
  {
    FirstFromSpec(s, needle, i);
  }

  // ---------------------------------------------------------------------------
  // Searches over "hello world"

  lemma HelloWorldFinds(s: seq<char>)
    requires s == "hello world"
    ensures FirstOf(s, "") == 0 && FirstOf(s, "hello") == 0
    ensures FirstOf(s, "world") == 6
  {
    Present(s, "hello", 0);
    Present(s, "world", 6);
    forall j: nat | j < 6 ensures !Occurs(s, "world", j) {
      Mismatch(s, "world", j, 0);
    }
    FirstOfUnique(s, "world", 6);
  }

  lemma HelloWorldMisses(s: seq<char>)
    requires s == "hello world"
    ensures FirstOf(s, "abc") == NPOS && FirstOf(s, "helloworld") == NPOS
  {
    forall j: nat ensures !Occurs(s, "abc", j) {
      if j < |s| { Mismatch(s, "abc", j, 0); }
    }
    Mismatch(s, "helloworld", 0, 5);
    Mismatch(s, "helloworld", 1, 0);
    assert forall j: nat :: !Occurs(s, "helloworld", j);
    FirstOfUnique(s, "abc", NPOS);
    FirstOfUnique(s, "helloworld", NPOS);
  }

  lemma HelloWorldRFindsChar(s: seq<char>)
    requires s == "hello world"
    ensures LastOf(s, ['d']) == 10 && LastOf(s, ['l']) == 9
  {
    OccursChar(s, 'd', 10);
    LastOfUnique(s, ['d'], 10);
    OccursChar(s, 'l', 9);
    OccursChar(s, 'l', 10);
    LastOfUnique(s, ['l'], 9);
  }

  lemma HelloWorldRFindsEdgeChars(s: seq<char>)
    requires s == "hello world"
    ensures LastOf(s, ['h']) == 0 && LastOf(s, ['z']) == NPOS
  {
    forall j: nat ensures Occurs(s, ['h'], j) <==> j == 0 {
      OccursChar(s, 'h', j);
    }
    LastOfUnique(s, ['h'], 0);
    forall j: nat ensures !Occurs(s, ['z'], j) {
      OccursChar(s, 'z', j);
    }
    LastOfUnique(s, ['z'], NPOS);
  }

  lemma HelloWorldRFinds(s: seq<char>)
    requires s == "hello world"
    ensures LastOf(s, "world") == 6 && LastOf(s, "hello") == 0
    ensures LastOf(s, "d") == 10 && LastOf(s, "") == 11
    ensures LastOf(s, "abc") == NPOS
  {
    Present(s, "world", 6);
    LastOfUnique(s, "world", 6);
    Present(s, "hello", 0);
    forall j: nat | 0 < j ensures !Occurs(s, "hello", j) {
      if j < |s| { Mismatch(s, "hello", j, 0); }
    }
    LastOfUnique(s, "hello", 0);
    assert "d" == ['d'];
    OccursChar(s, 'd', 10);
    LastOfUnique(s, "d", 10);
    assert Occurs(s, "", 11);
    LastOfUnique(s, "", 11);
    forall j: nat ensures !Occurs(s, "abc", j) {
      if j < |s| { Mismatch(s, "abc", j, 0); }
    }
    LastOfUnique(s, "abc", NPOS);
  }

  // ---------------------------------------------------------------------------
  // View scenarios over "hello world"

  lemma SubstrScenarios(mem: Memory)
    requires mem == Mem
    ensures HelloWorld().Substr(0, 5).Contents(mem) == "hello"
    ensures HelloWorld().Substr(0).Contents(mem) == "hello world"
    ensures HelloWorld().Substr(6).Contents(mem) == "world"
    ensures HelloWorld().Substr(1000).Contents(mem) == ""
    ensures HelloWorld().Substr(1000).Begin() == HelloWorld().End()
  {
    LiteralsValid(mem);
    HelloWorld().SubstrContents(mem, 0, 5);
    HelloWorld().SubstrContents(mem, 0, NPOS);
    HelloWorld().SubstrContents(mem, 6, NPOS);
    HelloWorld().SubstrContents(mem, 1000, NPOS);
  }

  method RemovePrefixScenarios(mem: Memory)
    requires mem == Mem
  {
    LiteralsValid(mem);
    var v := HelloWorld();
    v.SubstrContents(mem, 0, 6); v.SubstrContents(mem, 6, NPOS);
    v.SubstrContents(mem, 0, 0); v.SubstrContents(mem, 0, NPOS);
    v.SubstrContents(mem, 0, 10000); v.SubstrContents(mem, 10000, NPOS);

    var x := new StringView(v);
    var ret := x.RemovePrefix(6);
    assert ret.Contents(mem) == "hello " && x.Value().Contents(mem) == "world";

    x := new StringView(v);
    ret := x.RemovePrefix(0);
    assert ret.Contents(mem) == "" && x.Value().Contents(mem) == "hello world";

    x := new StringView(v);
    ret := x.RemovePrefix(10000);
    assert ret.Contents(mem) == "hello world" && x.Value().Contents(mem) == "";
    assert ret.Begin() == v.Begin();
  }

  method RemoveSuffixScenarios(mem: Memory)
    requires mem == Mem
  {
    LiteralsValid(mem);
    var v := HelloWorld();
    v.SubstrContents(mem, 0, 5); v.SubstrContents(mem, 5, NPOS);
    v.SubstrContents(mem, 0, 11); v.SubstrContents(mem, 11, NPOS);
    v.SubstrContents(mem, 0, 0); v.SubstrContents(mem, 0, NPOS);

    var x := new StringView(v);
    var ret := x.RemoveSuffix(6);
    assert ret.Contents(mem) == " world" && x.Value().Contents(mem) == "hello";

    x := new StringView(v);
    ret := x.RemoveSuffix(0);
    assert ret.Contents(mem) == "" && x.Value().Contents(mem) == "hello world";

    x := new StringView(v);
    ret := x.RemoveSuffix(10000);
    assert ret.Contents(mem) == "hello world" && x.Value().Contents(mem) == "";
    assert ret.Begin() == v.Begin() && x.Value().Begin() == v.Begin();
  }

  // Prefixes and suffixes of "hello world", with the storage "hello world "
  // so that the one-character-longer needle is a view too.

  const Spaced: Memory := "hello world" + " "

  lemma SpacedValid(mem: Memory)
    requires mem == Spaced
    ensures View(Addr(0), 11).Valid(mem) && View(Addr(0), 11).Contents(mem) == "hello world"
    ensures View(Addr(0), 12).Valid(mem) && View(Addr(0), 12).Contents(mem) == "hello world "
    ensures View(Addr(0), 6).Valid(mem) && View(Addr(0), 6).Contents(mem) == "hello "
    ensures View(Addr(5), 6).Valid(mem) && View(Addr(5), 6).Contents(mem) == " world"
    ensures View(Addr(0), 5).Valid(mem) && View(Addr(0), 5).Contents(mem) == "hello"
    ensures View(Addr(6), 5).Valid(mem) && View(Addr(6), 5).Contents(mem) == "world"
    ensures View(Addr(12), 0).Valid(mem) && View(Addr(12), 0).Contents(mem) == ""
  {
  }

  /** `SpacedValid` names the strings; the facts below need only that the
      views lie inside the storage and, for the false cases, one differing
      character. */
  lemma StartsWithHolds(mem: Memory)
    requires mem == Spaced
    ensures View(Addr(0), 11).StartsWith(mem, View(Addr(0), 11))
    ensures View(Addr(0), 11).StartsWith(mem, View(Addr(0), 6))
    ensures View(Addr(0), 11).StartsWith(mem, View(Addr(12), 0))
  {
    assert mem[0..11][..6] == mem[0..6];
  }

  lemma StartsWithFails(mem: Memory)
    requires mem == Spaced
    ensures !View(Addr(0), 11).StartsWith(mem, View(Addr(6), 5))
    ensures !View(Addr(0), 11).StartsWith(mem, View(Addr(0), 12))
  {
    assert mem[0..11][..5][0] == mem[0] != mem[6] == mem[6..11][0];
  }

  lemma EndsWithHolds(mem: Memory)
    requires mem == Spaced
    ensures View(Addr(0), 11).EndsWith(mem, View(Addr(0), 11))
    ensures View(Addr(0), 11).EndsWith(mem, View(Addr(5), 6))
    ensures View(Addr(0), 11).EndsWith(mem, View(Addr(12), 0))
  {
    assert mem[0..11][5..] == mem[5..11];
  }

  lemma EndsWithFails(mem: Memory)
    requires mem == Spaced
    ensures !View(Addr(0), 11).EndsWith(mem, View(Addr(0), 5))
    ensures !View(Addr(0), 11).EndsWith(mem, View(Addr(0), 12))
  {
    assert mem[0..11][6..][0] == mem[6] != mem[0] == mem[0..5][0];
  }

  method FindScenarios(mem: Memory)
    requires mem == Mem
  {
    LiteralsValid(mem);
    HelloWorldFinds(HelloWorld().Contents(mem));
    var k := HelloWorld().Find(mem, EmptyLit());
    assert k == 0;
    k := HelloWorld().Find(mem, Hello());
    assert k == 0;
    k := HelloWorld().Find(mem, World());
    assert k == 6;
    HelloWorldMisses(HelloWorld().Contents(mem));
    k := HelloWorld().Find(mem, Abc());
    assert k == NPOS;
  }

  lemma ContainsScenarios(mem: Memory)
    requires mem == Mem
    ensures HelloWorld().Contains(mem, Hello()) && HelloWorld().Contains(mem, World())
    ensures !HelloWorld().Contains(mem, HelloNoSpace())
  {
    LiteralsValid(mem);
    HelloWorldFinds(HelloWorld().Contents(mem));
    HelloWorldMisses(HelloWorld().Contents(mem));
  }

  method RFindScenarios(mem: Memory)
    requires mem == Mem
  {
    LiteralsValid(mem);
    HelloWorldRFindsChar(HelloWorld().Contents(mem));
    HelloWorldRFindsEdgeChars(HelloWorld().Contents(mem));
    var k := HelloWorld().RFindChar(mem, 'd');
    assert k == 10;
    k := HelloWorld().RFindChar(mem, 'z');
    assert k == NPOS;
    k := HelloWorld().RFindChar(mem, 'l');
    assert k == 9;
    k := HelloWorld().RFindChar(mem, 'h');
    assert k == 0;
  }

  method RFindViewScenarios(mem: Memory)
    requires mem == Mem
  {
    LiteralsValid(mem);
    HelloWorldRFinds(HelloWorld().Contents(mem));
    var k := HelloWorld().RFind(mem, World());
    assert k == 6;
    k := HelloWorld().RFind(mem, Hello());
    assert k == 0;
    k := HelloWorld().RFind(mem, Abc());
    assert k == NPOS;
    k := HelloWorld().RFind(mem, EmptyLit());
    assert k == HelloWorld().size;
  }

  lemma EqualityScenarios(mem: Memory)
    requires mem == Mem
    ensures Hello().Equals(mem, Hello())
    ensures FromPointer(Addr(0), 5, mem).Equals(mem, Hello())
    ensures HelloWorld().Substr(0, 5).Equals(mem, Hello())
    ensures !Hello().Equals(mem, World()) && Hello().NotEquals(mem, World())
  {
    LiteralsValid(mem);
    HelloWorld().SubstrContents(mem, 0, 5);
  }

  lemma IndexScenarios(mem: Memory)
    requires mem == Mem
    ensures Hello().Front(mem) == 'h' && Hello().At(mem, 2) == 'l' && Hello().Back(mem) == 'o'
  {
    LiteralsValid(mem);
  }

  method ConstructionScenarios(cstr: Memory)
    requires cstr == "hello world" + [NUL]
  {
    assert cstr[11] == NUL;
    var v := FromCString(cstr, Addr(0));
    assert v.Begin() == Addr(0) && v.size == 11;
    var w := FromPointer(Addr(0), 4, cstr);
    assert w.Begin() == Addr(0) && w.Contents(cstr) == "hell" && !w.IsEmpty();
    var e := FromCString(cstr, Addr(11));
    assert e.IsEmpty();
    assert Default().IsEmpty();
  }

  // ---------------------------------------------------------------------------
  // substr_starting_with over "ab cde f gh ij"

  const Letters: Memory := "ab cde f gh ij" + "klj"

  function Letters14(): View { View(Addr(0), 14) }

  lemma LettersValid(mem: Memory)
    requires mem == Letters
    ensures Letters14().Valid(mem) && Letters14().Contents(mem) == "ab cde f gh ij"
    ensures View(Addr(3), 3).Valid(mem) && View(Addr(3), 3).Contents(mem) == "cde"
    ensures View(Addr(0), 2).Valid(mem) && View(Addr(0), 2).Contents(mem) == "ab"
    ensures View(Addr(14), 3).Valid(mem) && View(Addr(14), 3).Contents(mem) == "klj"
  {
  }

  lemma LettersFinds(s: seq<char>)
    requires s == "ab cde f gh ij"
    ensures FirstOf(s, "cde") == 3 && FirstOf(s, "ab") == 0
  {
    assert FirstFrom(s, "cde", 0) == FirstFrom(s, "cde", 3) by {
      FirstFromSkip(s, "cde", 0);
      FirstFromSkip(s, "cde", 1);
      FirstFromSkip(s, "cde", 2);
    }
    assert FirstFrom(s, "cde", 3) == 3 by { Present(s, "cde", 3); }
    assert FirstFrom(s, "ab", 0) == 0 by { Present(s, "ab", 0); }
  }

  lemma LettersMisses(s: seq<char>)
    requires s == "ab cde f gh ij"
    ensures FirstOf(s, "klj") == NPOS
  {
    forall j: nat ensures !Occurs(s, "klj", j) {
      if j < |s| { Mismatch(s, "klj", j, 0); }
    }
    FirstOfUnique(s, "klj", NPOS);
  }

  lemma SubstrStartingWithScenarios(mem: Memory)
    requires mem == Letters
    ensures Letters14().SubstrStartingWith(mem, View(Addr(3), 3)).Contents(mem) == "cde f gh ij"
    ensures Letters14().SubstrStartingWith(mem, View(Addr(0), 2)).Contents(mem) == "ab cde f gh ij"
    ensures Letters14().SubstrStartingWith(mem, View(Addr(14), 3)).IsEmpty()
  {
    LettersValid(mem);
    var s := Letters14().Contents(mem);
    LettersFinds(s);
    LettersMisses(s);
    assert s[3..] == "cde f gh ij";
  }

  // ---------------------------------------------------------------------------
  // find_nth

  lemma AbFirstsLow(s: seq<char>)
    requires s == "ab ab ab ab ab"
    ensures FirstFrom(s, "ab", 0) == 0 && FirstFrom(s, "ab", 1) == 3 && FirstFrom(s, "ab", 4) == 6
  {
    var t := "ab";
    assert FirstFrom(s, t, 0) == 0 by { Present(s, t, 0); }
    assert FirstFrom(s, t, 3) == 3 by { Present(s, t, 3); }
    assert FirstFrom(s, t, 6) == 6 by { Present(s, t, 6); }
    assert FirstFrom(s, t, 1) == FirstFrom(s, t, 3) by {
      FirstFromSkip(s, t, 1);
      FirstFromSkip(s, t, 2);
    }
    assert FirstFrom(s, t, 4) == FirstFrom(s, t, 6) by {
      FirstFromSkip(s, t, 4);
      FirstFromSkip(s, t, 5);
    }
  }

  lemma AbFirstsHigh(s: seq<char>)
    requires s == "ab ab ab ab ab"
    ensures FirstFrom(s, "ab", 7) == 9 && FirstFrom(s, "ab", 10) == 12 && FirstFrom(s, "ab", 13) == NPOS
  {
    var t := "ab";
    assert FirstFrom(s, t, 9) == 9 by { Present(s, t, 9); }
    assert FirstFrom(s, t, 12) == 12 by { Present(s, t, 12); }
    assert FirstFrom(s, t, 7) == FirstFrom(s, t, 9) by {
      FirstFromSkip(s, t, 7);
      FirstFromSkip(s, t, 8);
    }
    assert FirstFrom(s, t, 10) == FirstFrom(s, t, 12) by {
      FirstFromSkip(s, t, 10);
      FirstFromSkip(s, t, 11);
    }
  }

  lemma AbNthsTail(s: seq<char>)
    requires s == "ab ab ab ab ab"
    ensures NthFrom(s, "ab", 4, 2) == 12 && NthFrom(s, "ab", 4, 3) == NPOS
  {
    var t := "ab";
    AbFirstsLow(s);
    AbFirstsHigh(s);
    assert NthFrom(s, t, 10, 0) == 12 by { NthFromStep(s, t, 10, 0); }
    assert NthFrom(s, t, 7, 1) == 12 by { NthFromStep(s, t, 7, 1); }
    assert NthFrom(s, t, 4, 2) == 12 by { NthFromStep(s, t, 4, 2); }
    assert NthFrom(s, t, 13, 0) == NPOS by { NthFromStep(s, t, 13, 0); }
    assert NthFrom(s, t, 10, 1) == NPOS by { NthFromStep(s, t, 10, 1); }
    assert NthFrom(s, t, 7, 2) == NPOS by { NthFromStep(s, t, 7, 2); }
    assert NthFrom(s, t, 4, 3) == NPOS by { NthFromStep(s, t, 4, 3); }
  }

  lemma AbNths(s: seq<char>)
    requires s == "ab ab ab ab ab"
    ensures NthFrom(s, "ab", 0, 0) == 0 && NthFrom(s, "ab", 0, 1) == 3
    ensures NthFrom(s, "ab", 0, 4) == 12 && NthFrom(s, "ab", 0, 5) == NPOS
  {
    var t := "ab";
    AbFirstsLow(s);
    AbNthsTail(s);
    assert NthFrom(s, t, 0, 0) == 0 by { NthFromStep(s, t, 0, 0); }
    assert NthFrom(s, t, 1, 0) == 3 by { NthFromStep(s, t, 1, 0); }
    assert NthFrom(s, t, 0, 1) == 3 by { NthFromStep(s, t, 0, 1); }
    assert NthFrom(s, t, 1, 3) == 12 by { NthFromStep(s, t, 1, 3); }
    assert NthFrom(s, t, 0, 4) == 12 by { NthFromStep(s, t, 0, 4); }
    assert NthFrom(s, t, 1, 4) == NPOS by { NthFromStep(s, t, 1, 4); }
    assert NthFrom(s, t, 0, 5) == NPOS by { NthFromStep(s, t, 0, 5); }
  }

  lemma AbcNth(s: seq<char>)
    requires s == "ab ab ab ab ab"
    ensures NthFrom(s, "abc", 0, 0) == NPOS
  {
    forall j: nat ensures !Occurs(s, "abc", j) {
      if j + 3 <= |s| {
        if s[j] != 'a' { Mismatch(s, "abc", j, 0); } else { Mismatch(s, "abc", j, 2); }
      }
    }
    FirstFromNone(s, "abc", 0);
    NthFromStep(s, "abc", 0, 0);
  }

  lemma OverlappingNthTail(s: seq<char>)
    requires s == "aaaaaaaaaa"
    ensures NthFrom(s, "a", 3, 2) == 5
  {
    var t := "a";
    assert NthFrom(s, t, 5, 0) == 5 by { Present(s, t, 5); NthFromStep(s, t, 5, 0); }
    assert NthFrom(s, t, 4, 1) == 5 by { Present(s, t, 4); NthFromStep(s, t, 4, 1); }
    assert NthFrom(s, t, 3, 2) == 5 by { Present(s, t, 3); NthFromStep(s, t, 3, 2); }
  }

  /** Overlapping occurrences count: the sixth "a" of ten is at index 5. */
  lemma OverlappingNth(s: seq<char>)
    requires s == "aaaaaaaaaa"
    ensures NthFrom(s, "a", 0, 5) == 5
  {
    var t := "a";
    OverlappingNthTail(s);
    assert NthFrom(s, t, 2, 3) == 5 by { Present(s, t, 2); NthFromStep(s, t, 2, 3); }
    assert NthFrom(s, t, 1, 4) == 5 by { Present(s, t, 1); NthFromStep(s, t, 1, 4); }
    assert NthFrom(s, t, 0, 5) == 5 by { Present(s, t, 0); NthFromStep(s, t, 0, 5); }
  }

  const AbMem: Memory := "ab ab ab ab ab" + "abc"

  method FindNthScenarios(mem: Memory)
    requires mem == AbMem
  {
    var data, ab, abc := View(Addr(0), 14), View(Addr(0), 2), View(Addr(14), 3);
    assert data.Valid(mem) && data.Contents(mem) == "ab ab ab ab ab";
    assert ab.Valid(mem) && ab.Contents(mem) == "ab";
    assert abc.Valid(mem) && abc.Contents(mem) == "abc";
    AbNths(data.Contents(mem));
    AbcNth(data.Contents(mem));
    var k := data.FindNth(mem, ab, 0);
    assert k == 0;
    k := data.FindNth(mem, ab, 1);
    assert k == 3;
    k := data.FindNth(mem, ab, 4);
    assert k == 12;
    k := data.FindNth(mem, ab, 5);
    assert k == NPOS;
    k := data.FindNth(mem, abc, 0);
    assert k == NPOS;
  }

  method FindNthOverlapping(mem: Memory)
    requires mem == "aaaaaaaaaa"
  {
    var data, a := View(Addr(0), 10), View(Addr(0), 1);
    assert data.Valid(mem) && data.Contents(mem) == "aaaaaaaaaa";
    assert a.Valid(mem) && a.Contents(mem) == "a";
    OverlappingNth(data.Contents(mem));
    var k := data.FindNth(mem, a, 5);
    assert k == 5;
  }

  // ---------------------------------------------------------------------------
  // compare, as on `_sv` literals

  lemma CompareScenarios()
    ensures Lex("abc", "abcd") < 0 && Lex("abcd", "abc") > 0
    ensures Lex("abc", "abc") == 0 && Lex("", "") == 0
  {
    LexProperPrefix("abc", "abcd");
    LexAntisymmetric("abc", "abcd");
  }

  method CompareViewScenarios(mem: Memory)
    requires mem == "abcd"
  {
    var abc, abcd, empty := Literal(Addr(0), 3, mem), Literal(Addr(0), 4, mem), Literal(Addr(4), 0, mem);
    assert abc.Contents(mem) == "abc";
    assert abcd.Contents(mem) == "abcd";
    assert empty.Contents(mem) == "";
    CompareScenarios();
    var r := abc.Compare(mem, abcd);
    assert r < 0;
    r := abcd.Compare(mem, abc);
    assert r > 0;
    r := abc.Compare(mem, abc);
    assert r == 0;
    r := empty.Compare(mem, empty);
    assert r == 0;
  }
}
