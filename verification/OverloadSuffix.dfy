/** The C++ name suffix of an overload: one piece per parameter type name, each
    closed by an underscore, and a final "vararg_" for a variadic signature.
    A char stands for one byte of the name. */
module OverloadSuffix {
  import opened Types

  const VARARG: string := "vararg"

  predicate IsAlnum(c: char) {
    '0' <= c <= '9' || 'a' <= c <= 'z' || 'A' <= c <= 'Z'
  }

  function Sanitize(n: string): string {
    seq(|n|, i requires 0 <= i < |n| => if IsAlnum(n[i]) then n[i] else '_')
  }

  function Pieces(names: seq<string>): string {
    if names == [] then []
    else Pieces(names[..|names| - 1]) + Sanitize(names[|names| - 1]) + "_"
  }

  function Suffix(names: seq<string>, variadic: bool): string {
    "_" + Pieces(names) + (if variadic then VARARG + "_" else "")
  }

  function Names(params: seq<TypeId>, fullName: TypeId -> string): seq<string> {
    seq(|params|, i requires 0 <= i < |params| => fullName(params[i]))
  }

  /** Empty exactly for an id that is no function type; `fullName` stands for the
      registry's full names of types. */
  method OverloadCppSuffix(reg: Registry, sig: TypeId, fullName: TypeId -> string) returns (s: string)
    ensures match FunctionOf(reg, Structural(sig))
            case None => s == ""
            case Some(fd) => s == Suffix(Names(fd.params, fullName), fd.IsVariadic()) != ""
  {
    var f := FunctionOf(reg, Structural(sig));
    if f == None {
      return "";
    }
    var fd := f.value;
    ghost var names := Names(fd.params, fullName);
    s := "_";
    for i := 0 to |fd.params|
      invariant s == "_" + Pieces(names[..i])
    {
      var n := fullName(fd.params[i]);
      var clean := "";
      for k := 0 to |n|
        invariant clean == Sanitize(n)[..k]
      {
        clean := clean + [if IsAlnum(n[k]) then n[k] else '_'];
      }
      s := s + clean;
      s := s + "_";
      assert names[..i + 1][..i] == names[..i];
    }
    assert names[..|names|] == names;
    if fd.IsVariadic() {
      s := s + VARARG + "_";
    }
  }

  // ---- words ------------------------------------------------------------------

  /** Splits at every char that is not alphanumeric; always at least one word. */
  function Words(n: string): (ws: seq<string>)
    ensures ws != []
  {
    if n == "" then [""]
    else
      var rest := Words(n[1..]);
      if IsAlnum(n[0]) then [[n[0]] + rest[0]] + rest[1..] else [""] + rest
  }

  function AllWords(names: seq<string>): seq<string> {
    if names == [] then [] else AllWords(names[..|names| - 1]) + Words(names[|names| - 1])
  }

  function SignatureWords(names: seq<string>, variadic: bool): seq<string> {
    AllWords(names) + (if variadic then [VARARG] else [])
  }

  /** Each word closed by an underscore. */
  function Closed(ws: seq<string>): string {
    if ws == [] then "" else ws[0] + "_" + Closed(ws[1..])
  }

  predicate Alnum(w: string) {
    forall c :: c in w ==> IsAlnum(c)
  }

  /** Inverse of Closed. */
  function Open(s: string): seq<string> {
    if s == "" then []
    else if s[0] == '_' then [""] + Open(s[1..])
    else
      var rest := Open(s[1..]);
      if rest == [] then [[s[0]]] else [[s[0]] + rest[0]] + rest[1..]
  }

  lemma {:induction false} OpenWord(w: string, rest: string)
    requires Alnum(w)
    ensures Open(w + "_" + rest) == [w] + Open(rest)
  {
    if w == "" {
      assert "_" + rest == "" + "_" + rest;
      assert ("_" + rest)[1..] == rest;
    } else {
      OpenWord(w[1..], rest);
      assert (w + "_" + rest)[1..] == w[1..] + "_" + rest;
      assert w[0] in w;
      assert [w[0]] + w[1..] == w;
    }
  }

  lemma {:induction false} OpenClosed(ws: seq<string>)
    requires forall w :: w in ws ==> Alnum(w)
    ensures Open(Closed(ws)) == ws
  {
    if ws != [] {
      OpenClosed(ws[1..]);
      OpenWord(ws[0], Closed(ws[1..]));
    }
  }

  lemma {:induction false} ClosedAppend(a: seq<string>, b: seq<string>)
    ensures Closed(a + b) == Closed(a) + Closed(b)
  {
    if a == [] {
      assert a + b == b;
    } else {
      ClosedAppend(a[1..], b);
      assert (a + b)[1..] == a[1..] + b;
    }
  }

  lemma {:induction false} WordsOfName(n: string)
    ensures forall w :: w in Words(n) ==> Alnum(w)
    ensures Closed(Words(n)) == Sanitize(n) + "_"
  {
    if n != "" {
      var rest := Words(n[1..]);
      WordsOfName(n[1..]);
      assert rest[0] in rest;
      assert Sanitize(n) == [if IsAlnum(n[0]) then n[0] else '_'] + Sanitize(n[1..]);
      assert Closed(rest) == rest[0] + "_" + Closed(rest[1..]);
      if IsAlnum(n[0]) {
        var first := [n[0]] + rest[0];
        assert Words(n) == [first] + rest[1..] && Words(n)[1..] == rest[1..];
        assert Closed(Words(n)) == first + "_" + Closed(rest[1..]);
        assert first + "_" + Closed(rest[1..]) == [n[0]] + (rest[0] + "_" + Closed(rest[1..]));
      } else {
        assert Words(n)[1..] == rest;
        assert Closed(Words(n)) == "" + "_" + Closed(rest);
      }
    }
  }

  lemma {:induction false} WordsOfNames(names: seq<string>)
    ensures forall w :: w in AllWords(names) ==> Alnum(w)
    ensures Closed(AllWords(names)) == Pieces(names)
  {
    if names != [] {
      WordsOfNames(names[..|names| - 1]);
      WordsOfName(names[|names| - 1]);
      ClosedAppend(AllWords(names[..|names| - 1]), Words(names[|names| - 1]));
    }
  }

  lemma ClosedWord(w: string)
    ensures Closed([w]) == w + "_"
  {
    assert Closed([w]) == w + "_" + Closed([]);
  }

  lemma VariadicIsClosed(names: seq<string>)
    ensures Closed(AllWords(names) + [VARARG]) == Pieces(names) + VARARG + "_"
  {
    WordsOfNames(names);
    ClosedAppend(AllWords(names), [VARARG]);
    ClosedWord(VARARG);
  }

  lemma SuffixIsClosed(names: seq<string>, variadic: bool)
    ensures forall w :: w in SignatureWords(names, variadic) ==> Alnum(w)
    ensures Suffix(names, variadic) == "_" + Closed(SignatureWords(names, variadic))
  {
    WordsOfNames(names);
    if variadic {
      VariadicIsClosed(names);
    } else {
      assert AllWords(names) + [] == AllWords(names);
      assert Suffix(names, variadic) == "_" + Pieces(names);
    }
  }

  /** Two signatures get the same suffix exactly when they consist of the same
      alphanumeric words, however these are grouped into names. */
  lemma SuffixCollision(a: seq<string>, va: bool, b: seq<string>, vb: bool)
    ensures Suffix(a, va) == Suffix(b, vb) <==> SignatureWords(a, va) == SignatureWords(b, vb)
  {
    SuffixIsClosed(a, va);
    SuffixIsClosed(b, vb);
    OpenClosed(SignatureWords(a, va));
    OpenClosed(SignatureWords(b, vb));
    assert Suffix(a, va)[1..] == Closed(SignatureWords(a, va));
    assert Suffix(b, vb)[1..] == Closed(SignatureWords(b, vb));
  }

  // ---- decoding ---------------------------------------------------------------

  predicate PlainName(n: string) {
    Alnum(n) && n != VARARG
  }

  function Decode(s: string): (seq<string>, bool)
    requires s != ""
  {
    var ws := Open(s[1..]);
    if ws != [] && ws[|ws| - 1] == VARARG then (ws[..|ws| - 1], true) else (ws, false)
  }

  lemma {:induction false} PlainWords(n: string)
    requires Alnum(n)
    ensures Words(n) == [n]
  {
    if n != "" {
      assert n[0] in n && forall c :: c in n[1..] ==> c in n;
      PlainWords(n[1..]);
      assert [n[0]] + n[1..] == n;
    }
  }

  lemma {:induction false} PlainAllWords(names: seq<string>)
    requires forall n :: n in names ==> Alnum(n)
    ensures AllWords(names) == names
  {
    if names != [] {
      PlainAllWords(names[..|names| - 1]);
      PlainWords(names[|names| - 1]);
    }
  }

  /** For alphanumeric names other than "vararg" the suffix gives back both the
      parameter list and whether the signature is variadic. */
  lemma DecodeSuffix(names: seq<string>, variadic: bool)
    requires forall n :: n in names ==> PlainName(n)
    ensures Decode(Suffix(names, variadic)) == (names, variadic)
  {
    PlainAllWords(names);
    SuffixIsClosed(names, variadic);
    OpenClosed(SignatureWords(names, variadic));
    assert Suffix(names, variadic)[1..] == Closed(SignatureWords(names, variadic));
    var ws := SignatureWords(names, variadic);
    assert Open(Suffix(names, variadic)[1..]) == ws;
    if variadic {
      assert ws == names + [VARARG] && ws[..|names|] == names;
    } else {
      assert ws == names;
      assert names != [] ==> names[|names| - 1] in names;
    }
  }

  /** Outside that class distinct signatures do share a suffix: a parameter called
      "vararg", template punctuation, and any two names of equally many non-ASCII
      bytes. */
  lemma SuffixClashes()
    ensures Suffix(["vararg"], false) == Suffix([], true)
    ensures Suffix(["Box<Int8>"], false) == Suffix(["Box_Int8_"], false)
    ensures Suffix(["A", "B"], false) == Suffix(["A_B"], false)
    ensures Suffix(["\U{D0}\U{B4}"], false) == Suffix(["\U{D0}\U{BD}"], false)
  {
    assert Sanitize("vararg") == "vararg";
    assert Sanitize("Box<Int8>") == Sanitize("Box_Int8_");
    assert Sanitize("A") == "A" && Sanitize("B") == "B" && Sanitize("A_B") == "A_B";
    assert Sanitize("\U{D0}\U{B4}") == Sanitize("\U{D0}\U{BD}");
    assert ["A", "B"][..1] == ["A"];
    assert ["A"][..0] == [] && ["vararg"][..0] == [];
  }

  // ---- which characters are kept ----------------------------------------------------------------

  /** Digits and Latin letters by their numbers in ASCII: 0-9, A-Z, a-z. */
  predicate KeptByte(b: int) {
    48 <= b <= 57 || 65 <= b <= 90 || 97 <= b <= 122
  }

  /** Every byte but ASCII digits and letters becomes an underscore (95), one for one. */
  lemma SanitizedName(n: string, i: nat)
    requires i < |n|
    ensures |Sanitize(n)| == |n|
    ensures Sanitize(n)[i] as int == if KeptByte(n[i] as int) then n[i] as int else 95
  {
  }

  /** The text of the suffix: an underscore, the names closed by underscores in order,
      and the closing word of a variadic signature. */
  lemma {:induction false} SuffixOfKeptNames(names: seq<string>, variadic: bool)
    requires forall n, i :: n in names && 0 <= i < |n| ==> KeptByte(n[i] as int)
    ensures Suffix(names, variadic) == "_" + Closed(names) + (if variadic then "vararg_" else "")
  {
    forall n | n in names ensures Alnum(n) {
      assert forall i :: 0 <= i < |n| ==> IsAlnum(n[i]);
    }
    WordsOfNames(names);
    PlainAllWords(names);
  }
}
