/** `fix` of theme/__init__.py: the node class a directive module
    defines is renamed after the module, its hyphen-separated name turned
    into PascalCase ("last-updated" becomes "LastUpdated"). */
module NodeNames {
  import opened Strings

  /** A node class: its identity and its `__name__`. */
  datatype NodeClass = NodeClass(ident: nat, name: string)

  /** The parts of a directive module `fix` reads: its `name` and its
      `node` class. */
  datatype DirectiveModule = DirectiveModule(name: string, node: NodeClass)

  /** Python's `str.capitalize` on ASCII text: the first character upper
      case, all others lower case. */
  function Capitalize(s: string): (r: string)
    ensures |r| == |s|
    ensures s != [] ==> r[0] == UpperAscii(s[0])
    ensures forall i :: 1 <= i < |s| ==> r[i] == LowerAscii(s[i])
  {
    if s == [] then [] else [UpperAscii(s[0])] + LowerString(s[1..])
  }

  /** Each piece capitalised. */
  function CapitalizeAll(parts: seq<string>): (r: seq<string>)
    ensures |r| == |parts|
    ensures forall i :: 0 <= i < |parts| ==> r[i] == Capitalize(parts[i])
  {
    if parts == [] then [] else [Capitalize(parts[0])] + CapitalizeAll(parts[1..])
  }

  /** The new `__name__`: the pieces between hyphens, each capitalised,
      written one after the other. */
  function PascalName(name: string): string {
    Concat(CapitalizeAll(Split(name, '-')))
  }

  /** `fix`: the same class comes back, renamed after its module. */
  function Fix(m: DirectiveModule): (node: NodeClass)
    ensures node.ident == m.node.ident
    ensures node.name == PascalName(m.name)
    ensures '-' !in node.name
  {
    PascalNoHyphen(m.name);
    m.node.(name := PascalName(m.name))
  }

  // ---------------------------------------------------------------------
  // Properties

  /** Capitalising twice changes nothing more. */
  lemma {:induction false} CapitalizeIdempotent(s: string)
    ensures Capitalize(Capitalize(s)) == Capitalize(s)
  {
    var r := Capitalize(s);
    if s != [] {
      forall i | 0 <= i < |s| ensures Capitalize(r)[i] == r[i] {
        if i == 0 {
          assert UpperAscii(UpperAscii(s[0])) == UpperAscii(s[0]);
        } else {
          assert LowerAscii(LowerAscii(s[i])) == LowerAscii(s[i]);
        }
      }
    }
  }

  /** Case mapping never produces a hyphen from anything else. */
  lemma {:induction false} CapitalizeKeepsHyphens(s: string)
    ensures '-' in Capitalize(s) <==> '-' in s
  {
    var r := Capitalize(s);
    forall i | 0 <= i < |s| ensures r[i] == '-' <==> s[i] == '-' {
    }
    if '-' in r {
      var i :| 0 <= i < |r| && r[i] == '-';
      assert s[i] == '-';
    }
    if '-' in s {
      var i :| 0 <= i < |s| && s[i] == '-';
      assert r[i] == '-';
    }
  }

  lemma {:induction false} ConcatAppend(a: seq<string>, b: seq<string>)
    ensures Concat(a + b) == Concat(a) + Concat(b)
    decreases |a|
  {
    if a == [] {
      assert a + b == b;
    } else {
      assert (a + b)[1..] == a[1..] + b;
      ConcatAppend(a[1..], b);
    }
  }

  /** Pieces without `c` concatenate to a text without `c`. */
  lemma {:induction false} ConcatFree(parts: seq<string>, c: char)
    requires forall k :: 0 <= k < |parts| ==> c !in parts[k]
    ensures c !in Concat(parts)
    decreases |parts|
  {
    if parts != [] {
      ConcatFree(parts[1..], c);
    }
  }

  /** Splitting at a hyphen between two texts splits each of them. */
  lemma {:induction false} SplitAppend(a: string, b: string, c: char)
    ensures Split(a + [c] + b, c) == Split(a, c) + Split(b, c)
  {
    var pa, pb := Split(a, c), Split(b, c);
    JoinSplit(a, c);
    JoinSplit(b, c);
    JoinAppend(pa, pb, [c]);
    forall k | 0 <= k < |pa + pb| ensures c !in (pa + pb)[k] {
      if k >= |pa| {
        assert (pa + pb)[k] == pb[k - |pa|];
      }
    }
    SplitJoin(pa + pb, c);
  }

  /** The new name never holds a hyphen. */
  lemma {:induction false} PascalNoHyphen(name: string)
    ensures '-' !in PascalName(name)
  {
    var parts := Split(name, '-');
    var caps := CapitalizeAll(parts);
    forall k | 0 <= k < |caps| ensures '-' !in caps[k] {
      CapitalizeKeepsHyphens(parts[k]);
    }
    ConcatFree(caps, '-');
  }

  /** A hyphen between two names makes the new name the two new names
      written together. */
  lemma {:induction false} PascalAppend(a: string, b: string)
    ensures PascalName(a + "-" + b) == PascalName(a) + PascalName(b)
  {
    var pa, pb := Split(a, '-'), Split(b, '-');
    SplitAppend(a, b, '-');
    assert CapitalizeAll(pa + pb) == CapitalizeAll(pa) + CapitalizeAll(pb);
    ConcatAppend(CapitalizeAll(pa), CapitalizeAll(pb));
  }

  /** A name without a hyphen is only capitalised. */
  lemma {:induction false} PascalSimple(name: string)
    requires '-' !in name
    ensures PascalName(name) == Capitalize(name)
  {
    var parts := Split(name, '-');
    JoinSplit(name, '-');
    assert parts == [name];
    assert CapitalizeAll(parts) == [Capitalize(name)];
    assert Concat([Capitalize(name)]) == Capitalize(name) + Concat([]);
  }

  /** The empty name stays empty. */
  lemma {:induction false} PascalEmpty()
    ensures PascalName("") == ""
  {
    PascalSimple("");
  }

  /** A leading hyphen adds nothing to the new name. */
  lemma {:induction false} LeadingHyphen(b: string)
    ensures PascalName("-" + b) == PascalName(b)
  {
    PascalEmpty();
    PascalAppend("", b);
    assert "" + "-" + b == "-" + b;
  }

  /** Nor does a trailing one. */
  lemma {:induction false} TrailingHyphen(a: string)
    ensures PascalName(a + "-") == PascalName(a)
  {
    PascalEmpty();
    PascalAppend(a, "");
    assert a + "-" + "" == a + "-";
  }

  /** A doubled hyphen counts as one. */
  lemma {:induction false} DoubledHyphen(a: string, b: string)
    ensures PascalName(a + "-" + "-" + b) == PascalName(a + "-" + b)
  {
    PascalAppend(a + "-", b);
    TrailingHyphen(a);
    PascalAppend(a, b);
  }

  /** Lower-case text is left as it is by `LowerString`. */
  lemma {:induction false} LowerOfLower(s: string)
    requires forall i :: 0 <= i < |s| ==> !('A' <= s[i] <= 'Z')
    ensures LowerString(s) == s
  {
  }

  lemma {:induction false} AuthorCapitalized()
    ensures Capitalize("author") == "Author"
  {
    assert "author"[1..] == "uthor";
    LowerOfLower("uthor");
  }

  /** The theme's own directive `author` gets the node name "Author". */
  lemma {:induction false} AuthorName()
    ensures PascalName("author") == "Author"
  {
    PascalSimple("author");
    AuthorCapitalized();
  }
}
