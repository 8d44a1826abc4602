/** Host names on the wire, section 3.1 of RFC 1035: each label preceded by its length, a zero at the end.
  *
  * `convertName` in src/mydns.c writes this form.  It does not check its input: a label's length is
  * stored in one byte, whatever it is, and an empty label yields a zero byte in the middle.
  */
module DnsNames {
  import opened Options

  type Byte = x: int | 0 <= x < 256

  type Label = seq<Byte>

  const DOT: Byte := 46

  // ---- the name as labels ----

  /** The parts of `h` between its dots. */
  function Labels(h: seq<Byte>): (ls: seq<Label>)
    ensures ls != []
  {
    if h == [] then [[]]
    else
      var rest := Labels(h[1..]);
      if h[0] == DOT then [[]] + rest else [[h[0]] + rest[0]] + rest[1..]
  }

  /** Each label followed by a dot. */
  function Dotted(ls: seq<Label>): seq<Byte> {
    if ls == [] then [] else ls[0] + [DOT] + Dotted(ls[1..])
  }

  /** Each label preceded by its length, as far as a byte can hold it. */
  function Encode(ls: seq<Label>): seq<Byte> {
    if ls == [] then [] else [|ls[0]| % 256] + ls[0] + Encode(ls[1..])
  }

  ghost predicate DotFree(ls: seq<Label>) {
    forall l :: l in ls ==> DOT !in l
  }

  ghost predicate ZeroFree(ls: seq<Label>) {
    forall l :: l in ls ==> 0 !in l
  }

  lemma {:induction false} LabelsMeaning(h: seq<Byte>)
    ensures Dotted(Labels(h)) == h + [DOT]
    ensures DotFree(Labels(h)) && (0 !in h ==> ZeroFree(Labels(h)))
  {
    if h == [] {
      assert Dotted([[]]) == [DOT];
    } else {
      LabelsMeaning(h[1..]);
      var rest := Labels(h[1..]);
      assert h == [h[0]] + h[1..];
      if h[0] == DOT {
        DottedCons([], rest);
      } else {
        assert rest == [rest[0]] + rest[1..];
        DottedCons(rest[0], rest[1..]);
        DottedCons([h[0]] + rest[0], rest[1..]);
      }
      assert Dotted(Labels(h)) == [h[0]] + Dotted(rest);
    }
  }

  lemma DottedCons(l: Label, ls: seq<Label>)
    ensures Dotted([l] + ls) == l + [DOT] + Dotted(ls)
  {
    assert ([l] + ls)[1..] == ls;
  }

  lemma {:induction false} DottedAppend(ls: seq<Label>, l: Label)
    ensures Dotted(ls + [l]) == Dotted(ls) + l + [DOT]
    ensures Encode(ls + [l]) == Encode(ls) + [|l| % 256] + l
  {
    if ls == [] {
      assert [l][1..] == [];
    } else {
      DottedAppend(ls[1..], l);
      assert (ls + [l])[1..] == ls[1..] + [l];
    }
  }

  function FirstDot(s: seq<Byte>): nat {
    if s == [] || s[0] == DOT then 0 else 1 + FirstDot(s[1..])
  }

  lemma {:induction false} FirstDotAfter(l: Label, s: seq<Byte>)
    requires DOT !in l
    ensures FirstDot(l + [DOT] + s) == |l|
  {
    if l != [] {
      assert (l + [DOT] + s)[1..] == l[1..] + [DOT] + s;
      FirstDotAfter(l[1..], s);
    }
  }

  /** Dot-free labels can be read back from the dotted form, so `Labels` is the only way to take it apart. */
  lemma {:induction false} DottedInjective(ls: seq<Label>, ms: seq<Label>)
    requires DotFree(ls) && DotFree(ms) && Dotted(ls) == Dotted(ms)
    ensures ls == ms
  {
    if ls == [] || ms == [] {
    } else {
      var a, b := ls[0], ms[0];
      assert a in ls && b in ms;
      FirstDotAfter(a, Dotted(ls[1..]));
      FirstDotAfter(b, Dotted(ms[1..]));
      assert a == Dotted(ls)[..|a|] == b;
      assert Dotted(ls[1..]) == Dotted(ls)[|a| + 1..] == Dotted(ms[1..]);
      DottedInjective(ls[1..], ms[1..]);
    }
  }

  lemma HostFromLabels(g: seq<Byte>, h: seq<Byte>)
    requires Labels(g) == Labels(h)
    ensures g == h
  {
    LabelsMeaning(g);
    LabelsMeaning(h);
    assert g == (g + [DOT])[..|g|] && h == (h + [DOT])[..|h|];
  }

  /** Taking the first label off a host. */
  lemma {:induction false} FirstLabel(l: Label, h: seq<Byte>)
    requires DOT !in l
    ensures Labels(l) == [l] && Labels(l + ([DOT] + h)) == [l] + Labels(h)
  {
    if l == [] {
      assert [] + ([DOT] + h) == [DOT] + h && ([DOT] + h)[1..] == h;
    } else {
      FirstLabel(l[1..], h);
      assert (l + ([DOT] + h))[1..] == l[1..] + ([DOT] + h);
      assert ([l[1..]] + Labels(h))[1..] == Labels(h);
      assert l == [l[0]] + l[1..];
    }
  }

  lemma {:induction false} EncodeLength(ls: seq<Label>)
    ensures |Encode(ls)| == |Dotted(ls)|
  {
    if ls != [] {
      EncodeLength(ls[1..]);
    }
  }

  // ---- reading it back ----

  /** A decoder of length-prefixed labels, of which those of section 3.1 of RFC 1035 are the ones up to 63
    * bytes: the labels up to the first zero length, and None when the bytes run out.
    */
  function Decode(b: seq<Byte>): Option<seq<Label>>
    decreases |b|
  {
    if b == [] then None
    else
      var n: int := b[0];
      if n == 0 then Some([])
      else if |b| < 1 + n then None
      else
        match Decode(b[1 + n..])
        case None => None
        case Some(rest) => Some([b[1..1 + n]] + rest)
  }

  /** Lengths that a byte can hold and that do not end the name.  RFC 1035 allows 1 to 63. */
  ghost predicate Sized(ls: seq<Label>) {
    forall l :: l in ls ==> 1 <= |l| <= 255
  }

  lemma {:induction false} DecodeEncode(ls: seq<Label>, tail: seq<Byte>)
    requires Sized(ls)
    ensures Decode(Encode(ls) + [0] + tail) == Some(ls)
  {
    var b := Encode(ls) + [0] + tail;
    if ls == [] {
    } else {
      var l := ls[0];
      assert l in ls && b == [|l|] + l + (Encode(ls[1..]) + [0] + tail);
      assert b[1 + |l|..] == Encode(ls[1..]) + [0] + tail && b[1..1 + |l|] == l;
      DecodeEncode(ls[1..], tail);
      assert ls == [l] + ls[1..];
    }
  }

  /** What `convertName` writes for host `h`. */
  function Converted(h: seq<Byte>): seq<Byte> {
    Encode(Labels(h)) + [0]
  }

  /** Every label of the host can be told by its length byte: 1 to 255 characters, so certainly 1 to 63. */
  ghost predicate GoodName(h: seq<Byte>) {
    0 !in h && Sized(Labels(h))
  }

  /** Exactly two bytes more than the host, whatever the host. */
  lemma ConvertedLength(h: seq<Byte>)
    ensures |Converted(h)| == |h| + 2
  {
    LabelsMeaning(h);
    EncodeLength(Labels(h));
  }

  /** Good names can be read back, whatever follows; so no two share a prefix. */
  lemma ConvertedDecodes(h: seq<Byte>, tail: seq<Byte>)
    requires GoodName(h)
    ensures Decode(Converted(h) + tail) == Some(Labels(h))
  {
    DecodeEncode(Labels(h), tail);
    assert Converted(h) + tail == Encode(Labels(h)) + [0] + tail;
  }

  lemma ConvertedPrefixFree(g: seq<Byte>, h: seq<Byte>, tail: seq<Byte>)
    requires GoodName(g) && GoodName(h) && Converted(g) <= Converted(h) + tail
    ensures g == h
  {
    var more := (Converted(h) + tail)[|Converted(g)|..];
    assert Converted(g) + more == Converted(h) + tail;
    ConvertedDecodes(g, more);
    ConvertedDecodes(h, tail);
    HostFromLabels(g, h);
  }

  // ---- as a C string ----

  /** The bytes before the first zero. */
  function CStr(b: seq<Byte>): (s: seq<Byte>)
    ensures 0 !in s && s <= b
    ensures |s| < |b| ==> b[|s|] == 0
  {
    if b == [] || b[0] == 0 then [] else [b[0]] + CStr(b[1..])
  }

  lemma {:induction false} CStrOf(s: seq<Byte>, tail: seq<Byte>)
    requires 0 !in s
    ensures CStr(s + [0] + tail) == s
  {
    var b := s + [0] + tail;
    if s != [] {
      assert b[1..] == s[1..] + [0] + tail;
      CStrOf(s[1..], tail);
    }
  }

  /** The labels that survive: those before the first whose length byte is zero. */
  function Cut(ls: seq<Label>): (cs: seq<Label>)
    ensures cs <= ls
    ensures forall l :: l in cs ==> |l| % 256 != 0
    ensures |cs| < |ls| ==> |ls[|cs|]| % 256 == 0
  {
    if ls == [] || |ls[0]| % 256 == 0 then [] else [ls[0]] + Cut(ls[1..])
  }

  /** What a string function sees of an encoded name. */
  lemma {:induction false} CStrEncode(ls: seq<Label>, tail: seq<Byte>)
    requires ZeroFree(ls)
    ensures CStr(Encode(ls) + [0] + tail) == Encode(Cut(ls))
  {
    if ls != [] {
      var l, ms := ls[0], ls[1..];
      var head, rest := [|l| % 256] + l, Encode(ms) + [0] + tail;
      assert Encode(ls) + [0] + tail == head + rest;
      if |l| % 256 != 0 {
        assert 0 !in l && 0 !in head by { assert l in ls; }
        CStrPast(head, rest);
        assert ZeroFree(ms) by { assert forall m :: m in ms ==> m in ls; }
        CStrEncode(ms, tail);
        EncodeCons(l, Cut(ms));
      }
    }
  }

  lemma EncodeCons(l: Label, ls: seq<Label>)
    ensures Encode([l] + ls) == ([|l| % 256] + l) + Encode(ls)
  {
    assert ([l] + ls)[1..] == ls;
  }

  lemma {:induction false} CStrPast(s: seq<Byte>, b: seq<Byte>)
    requires 0 !in s
    ensures CStr(s + b) == s + CStr(b)
  {
    if s == [] {
      assert s + b == b;
    } else {
      assert (s + b)[1..] == s[1..] + b;
      CStrPast(s[1..], b);
    }
  }

  /** Labels shorter than 256 bytes, empty ones too, are determined by their encoding. */
  lemma {:induction false} EncodeInjective(ls: seq<Label>, ms: seq<Label>)
    requires Encode(ls) == Encode(ms)
    requires forall l :: l in ls + ms ==> |l| < 256
    ensures ls == ms
  {
    if ls != [] && ms != [] {
      var l, m := ls[0], ms[0];
      assert l in ls + ms && m in ls + ms;
      assert |l| == Encode(ls)[0] == Encode(ms)[0] == |m|;
      assert l == Encode(ls)[1..1 + |l|] == Encode(ms)[1..1 + |m|] == m;
      assert Encode(ls[1..]) == Encode(ls)[1 + |l|..] == Encode(ms)[1 + |m|..] == Encode(ms[1..]);
      assert forall n :: n in ls[1..] + ms[1..] ==> n in ls + ms;
      EncodeInjective(ls[1..], ms[1..]);
    }
  }

  lemma {:induction false} LabelsFitEncoding(ls: seq<Label>)
    ensures forall l :: l in ls ==> |l| < |Encode(ls)|
  {
    if ls != [] {
      LabelsFitEncoding(ls[1..]);
      assert forall l :: l in ls ==> l == ls[0] || l in ls[1..];
    }
  }

  /** For hosts with good labels the C string holds the whole name. */
  lemma GoodNamesAreWhole(h: seq<Byte>)
    requires GoodName(h)
    ensures Cut(Labels(h)) == Labels(h)
    ensures CStr(Converted(h)) + [0] == Converted(h)
    ensures 0 !in Encode(Labels(h))
  {
    LabelsMeaning(h);
    SizedIsUncut(Labels(h));
    CStrEncode(Labels(h), []);
    assert Converted(h) + [] == Converted(h);
    assert Encode(Labels(h)) + [0] + [] == Converted(h);
  }

  lemma {:induction false} SizedIsUncut(ls: seq<Label>)
    requires Sized(ls)
    ensures Cut(ls) == ls
  {
    if ls != [] {
      assert ls[0] in ls;
      SizedIsUncut(ls[1..]);
    }
  }

  lemma ConvertedIsCut(h: seq<Byte>)
    requires 0 !in h
    ensures CStr(Converted(h)) == Encode(Cut(Labels(h)))
  {
    LabelsMeaning(h);
    CStrEncode(Labels(h), []);
    assert Encode(Labels(h)) + [0] + [] == Converted(h);
  }

  // ---- a dot at the end ----

  lemma {:induction false} LabelsTrailingDot(h: seq<Byte>)
    ensures Labels(h + [DOT]) == Labels(h) + [[]]
  {
    if h == [] {
      assert h + [DOT] == [DOT] && [DOT][1..] == [];
    } else {
      LabelsTrailingDot(h[1..]);
      assert (h + [DOT])[1..] == h[1..] + [DOT];
    }
  }

  lemma {:induction false} CutAtEmpty(ls: seq<Label>)
    requires Sized(ls)
    ensures Cut(ls + [[]]) == ls
  {
    if ls != [] {
      assert ls[0] in ls && (ls + [[]])[1..] == ls[1..] + [[]];
      CutAtEmpty(ls[1..]);
    }
  }

  /** The empty label behind a dot at the end is cut off. */
  lemma TrailingDotIsCut(h: seq<Byte>)
    requires GoodName(h)
    ensures 0 !in h + [DOT] && Cut(Labels(h + [DOT])) == Labels(h) == Cut(Labels(h))
  {
    LabelsTrailingDot(h);
    CutAtEmpty(Labels(h));
    SizedIsUncut(Labels(h));
  }
}
