/** 8.3 names: kernel/fat16.c:105-128 and 224-230. A C string is the run of its non-zero bytes. */
module FatNames {
  import opened Bytes

  const SPACE := 0x20
  const DOT := 0x2E

  function Upper(c: Byte): Byte { if 0x61 <= c <= 0x7A then c - 0x20 else c }

  function UpperAll(s: seq<Byte>): (r: seq<Byte>)
    ensures |r| == |s| && forall i :: 0 <= i < |s| ==> r[i] == Upper(s[i])
  {
    if s == [] then [] else UpperAll(s[..|s| - 1]) + [Upper(s[|s| - 1])]
  }

  function Spaces(n: nat): (r: seq<Byte>)
    ensures |r| == n && forall i :: 0 <= i < n ==> r[i] == SPACE
  {
    if n == 0 then [] else Spaces(n - 1) + [SPACE]
  }

  /** The first n characters, padded with spaces to n. */
  function Field(s: seq<Byte>, n: nat): (r: seq<Byte>)
    ensures |r| == n
  {
    if |s| <= n then UpperAll(s) + Spaces(n - |s|) else UpperAll(s[..n])
  }

  /** Up to, and after, the first occurrence of a character. */
  function Before(s: seq<Byte>, c: Byte): (r: seq<Byte>)
    ensures |r| <= |s| && r == s[..|r|] && (|r| < |s| ==> s[|r|] == c) && c !in r
  {
    if s == [] || s[0] == c then [] else [s[0]] + Before(s[1..], c)
  }

  function After(s: seq<Byte>, c: Byte): seq<Byte> {
    var b := |Before(s, c)|;
    if b < |s| then s[b + 1..] else []
  }

  /** The on-disk form of a name: eight bytes of name and three of extension. */
  function FatName(input: seq<Byte>): (r: seq<Byte>)
    ensures |r| == 11
  {
    Field(Before(input, DOT), 8) + Field(After(input, DOT), 3)
  }

  lemma UpperNext(s: seq<Byte>, from: nat, i: nat)
    requires from <= i < |s|
    ensures UpperAll(s[from..i + 1]) == UpperAll(s[from..i]) + [Upper(s[i])]
  {
    assert s[from..i + 1][..i - from] == s[from..i];
  }

  predicate NoDotBelow(s: seq<Byte>, i: nat) { i <= |s| && forall j :: 0 <= j < i ==> s[j] != DOT }

  /** The first dot ends the name and begins the extension. */
  lemma SplitAt(s: seq<Byte>, dot: nat)
    requires NoDotBelow(s, dot) && (dot < |s| ==> s[dot] == DOT)
    ensures Before(s, DOT) == s[..dot] && After(s, DOT) == if dot < |s| then s[dot + 1..] else []
  {
    assert |Before(s, DOT)| == dot;
  }

  lemma NoDotYet(s: seq<Byte>)
    ensures NoDotBelow(s, 0)
  {
  }

  lemma NoDotNext(s: seq<Byte>, i: nat)
    requires NoDotBelow(s, i) && i < |s| && s[i] != DOT
    ensures NoDotBelow(s, i + 1)
  {
  }

  /** The whole name, of what the loops have read. */
  lemma NameFilled(s: seq<Byte>, dot: nat, n: nat, e: nat)
    requires NoDotBelow(s, dot) && dot <= |s| && (dot < |s| ==> s[dot] == DOT)
    requires n <= dot && (n == 8 || n == dot <= 8)
    requires if dot < |s| then e <= 3 && dot + 1 + e <= |s| && (e == 3 || dot + 1 + e == |s|) else e == 0
    ensures UpperAll(s[..n]) + Spaces(8 - n) + ((if dot < |s| then UpperAll(s[dot + 1..dot + 1 + e]) else []) + Spaces(3 - e)) == FatName(s)
  {
    hide Field, Spaces, UpperAll, NoDotBelow, Before, After;
    SplitAt(s, dot);
    TextFilled(s[..dot], s[..n], 8);
    if dot < |s| {
      TextFilled(s[dot + 1..], s[dot + 1..dot + 1 + e], 3);
    } else {
      NoneUpper();
      TextFilled([], [], 3);
    }
  }

  lemma TextFilled(s: seq<Byte>, t: seq<Byte>, n: nat)
    requires |t| <= |s| && t == s[..|t|] && (|t| == n || |t| == |s| <= n)
    ensures |t| <= n && UpperAll(t) + Spaces(n - |t|) == Field(s, n)
  {
    hide UpperAll, Spaces, Field;
    FieldFilled(s, UpperAll(t), n);
  }

  lemma NoneUpper()
    ensures UpperAll([]) == []
  {
  }

  /** to_fat_name. */
  method ToFatName(input: seq<Byte>) returns (name: seq<Byte>)
    ensures name == FatName(input)
  {
    hide *;
    NoneUpper();
    NoDotYet(input);
    var n: seq<Byte> := [];
    var i := 0;
    while i < |input| && input[i] != DOT && |n| < 8
      invariant i == |n| <= 8 && i <= |input| && NoDotBelow(input, i) && n == UpperAll(input[..i])
    {
      UpperNext(input, 0, i);
      NoDotNext(input, i);
      n := n + [Upper(input[i])];
      i := i + 1;
    }
    while i < |input| && input[i] != DOT
      invariant |n| <= i <= |input| && NoDotBelow(input, i) && n == UpperAll(input[..|n|])
      invariant |n| == 8 || (i == |n| <= 8 && (i == |input| || input[i] == DOT))
    {
      NoDotNext(input, i);
      i := i + 1;
    }
    ghost var dot := i;
    var e: seq<Byte> := [];
    if i < |input| {
      i := i + 1;
      while i < |input| && |e| < 3
        invariant i == dot + 1 + |e| <= |input| && |e| <= 3 && e == UpperAll(input[dot + 1..i])
      {
        UpperNext(input, dot + 1, i);
        e := e + [Upper(input[i])];
        i := i + 1;
      }
    }
    name := n + Spaces(8 - |n|) + (e + Spaces(3 - |e|));
    NameFilled(input, dot, |n|, |e|);
  }

  lemma FieldFilled(s: seq<Byte>, r: seq<Byte>, n: nat)
    requires |r| <= |s| && r == UpperAll(s[..|r|]) && (|r| == n || |r| == |s| <= n)
    ensures |r| <= n && r + Spaces(n - |r|) == Field(s, n)
  {
    if |r| == |s| { assert s[..|r|] == s; }
    assert Spaces(0) == [];
  }

  /** A letter in its upper case; anything else as it is. */
  function Capital(c: Byte): Byte { if 'a' as int <= c <= 'z' as int then c - 'a' as int + 'A' as int else c }

  /** The eleven bytes of an on-disk name, one by one: eight of what comes before the first dot and three of what comes after it,
      in upper case, with spaces where there is less. */
  lemma NameBytes(input: seq<Byte>, dot: nat, i: nat)
    requires dot <= |input| && (forall j :: 0 <= j < dot ==> input[j] != 0x2E) && (dot < |input| ==> input[dot] == 0x2E)
    ensures |FatName(input)| == 11
    ensures i < 8 ==> FatName(input)[i] == if i < dot then Capital(input[i]) else 0x20
    ensures i < 3 ==> FatName(input)[8 + i] == if dot + 1 + i < |input| then Capital(input[dot + 1 + i]) else 0x20
  {
    BeforeIs(input, DOT, input[..dot]);
    FieldBytes(input[..dot], 8, i);
    FieldBytes(After(input, DOT), 3, i);
  }

  lemma FieldBytes(s: seq<Byte>, n: nat, i: nat)
    ensures i < n ==> Field(s, n)[i] == if i < |s| then Capital(s[i]) else 0x20
  {
  }

  /** The name as the directory lister prints it. */
  function Listed(name: seq<Byte>): seq<Byte>
    requires |name| == 11
  {
    Before(name[..8], SPACE) + if name[8] != SPACE then [DOT] + Before(name[8..], SPACE) else []
  }

  /** What comes before the first space of the name field, and, if the extension field has anything, a dot and what comes before
      the first space of that. */
  lemma ListedBytes(name: seq<Byte>, a: nat, b: nat)
    requires |name| == 11 && a <= 8 && b <= 3
    requires (forall i :: 0 <= i < a ==> name[i] != 0x20) && (a < 8 ==> name[a] == 0x20)
    requires (forall i :: 8 <= i < 8 + b ==> name[i] != 0x20) && (b < 3 ==> name[8 + b] == 0x20)
    ensures Listed(name) == name[..a] + if b > 0 then [0x2E] + name[8..8 + b] else []
  {
    BeforeIs(name[..8], SPACE, name[..a]);
    BeforeIs(name[8..], SPACE, name[8..8 + b]);
  }

  /** The formatting in fat16_list_root. */
  method FormatName(name: seq<Byte>) returns (out: seq<Byte>)
    requires |name| == 11
    ensures out == Listed(name)
  {
    var c := 0;
    out := [];
    while c < 8 && name[c] != SPACE
      invariant 0 <= c <= 8 && out == name[..c] && SPACE !in out
    {
      assert name[..c + 1] == name[..c] + [name[c]];
      out, c := out + [name[c]], c + 1;
    }
    BeforeIs(name[..8], SPACE, out);
    if name[8] != SPACE {
      var ext: seq<Byte>;
      ext, c := [], 0;
      while c < 3 && name[8 + c] != SPACE
        invariant 0 <= c <= 3 && ext == name[8..8 + c] && SPACE !in ext
      {
        assert name[8..8 + c + 1] == name[8..8 + c] + [name[8 + c]];
        ext, c := ext + [name[8 + c]], c + 1;
      }
      BeforeIs(name[8..], SPACE, ext);
      out := out + [DOT] + ext;
    }
  }

  /** A field of visible characters followed by padding only, without lower case. */
  predicate Canonical(field: seq<Byte>) {
    var text := Before(field, SPACE);
    (forall i :: |text| <= i < |field| ==> field[i] == SPACE) && (forall c <- text :: Upper(c) == c)
  }

  /** Listing a name and converting it back gives the name exactly when both fields are upper-case
      text padded with spaces, and the name field has no dot. */
  lemma ListedConvertsBack(name: seq<Byte>)
    requires |name| == 11
    ensures FatName(Listed(name)) == name <==>
      Canonical(name[..8]) && Canonical(name[8..]) && DOT !in Before(name[..8], SPACE)
  {
    var b, e := Before(name[..8], SPACE), Before(name[8..], SPACE);
    if DOT in b {
      DotCuts(name);
    } else {
      ListedParts(name);
      FieldIs(name[..8], 8);
      FieldIs(name[8..], 3);
      assert name == name[..8] + name[8..];
      assert FatName(Listed(name)) == Field(b, 8) + Field(e, 3);
      if FatName(Listed(name)) == name {
        assert Field(b, 8) == FatName(Listed(name))[..8] && Field(e, 3) == FatName(Listed(name))[8..];
      }
    }
  }

  lemma ListedParts(name: seq<Byte>)
    requires |name| == 11 && DOT !in Before(name[..8], SPACE)
    ensures Before(Listed(name), DOT) == Before(name[..8], SPACE) && After(Listed(name), DOT) == Before(name[8..], SPACE)
  {
    var b, l := Before(name[..8], SPACE), Listed(name);
    BeforeIs(l, DOT, b);
    if name[8] == SPACE {
      assert Before(name[8..], SPACE) == [];
    }
  }

  /** What comes before the first c is fixed by where it is. */
  lemma {:induction false} BeforeIs(s: seq<Byte>, c: Byte, r: seq<Byte>)
    requires |r| <= |s| && r == s[..|r|] && c !in r && (|r| < |s| ==> s[|r|] == c)
    ensures Before(s, c) == r
  {
    var b := Before(s, c);
    assert forall i :: 0 <= i < |b| ==> b[i] in b && b[i] == s[i];
    assert forall i :: 0 <= i < |r| ==> r[i] in r && r[i] == s[i];
  }

  /** A field comes back exactly when it is canonical. */
  lemma FieldIs(field: seq<Byte>, n: nat)
    requires |field| == n
    ensures Field(Before(field, SPACE), n) == field <==> Canonical(field)
  {
    var text := Before(field, SPACE);
    var back := Field(text, n);
    assert back == UpperAll(text) + Spaces(n - |text|);
    if Canonical(field) {
      forall i | 0 <= i < n ensures back[i] == field[i] {
        if i < |text| { assert text[i] in text; }
      }
    }
    if back == field {
      forall i | |text| <= i < n ensures field[i] == SPACE { assert back[i] == SPACE; }
      forall c <- text ensures Upper(c) == c {
        var i :| 0 <= i < |text| && text[i] == c;
        assert back[i] == Upper(text[i]);
      }
    }
  }

  /** A dot inside the name field moves into the separator's place. */
  lemma DotCuts(name: seq<Byte>)
    requires |name| == 11 && DOT in Before(name[..8], SPACE)
    ensures FatName(Listed(name)) != name
  {
    var b, l := Before(name[..8], SPACE), Listed(name);
    var i :| 0 <= i < |b| && b[i] == DOT;
    var c := Before(l, DOT);
    assert l[..|b|] == b;
    assert forall k :: 0 <= k < |c| ==> c[k] in c && c[k] == l[k];
    assert l[i] == DOT;
    assert l[|c|] == DOT && l[|c|] == b[|c|] == name[|c|];
    assert FatName(l)[|c|] == Field(c, 8)[|c|] == SPACE;
  }
}
