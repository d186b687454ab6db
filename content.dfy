/** The typed-content writer `AssetExporter.writeGenericContent`: one entry
    `{"type", "name", "value"}` becomes an element tagged with the type, with
    a `name` attribute and either an `img` child (textures) or a text node
    holding the rendered value. */
module Content {
  import opened Types

  /** The two float renderings the writer relies on, `"%.6f"` and `str()` of a
      float. Both belong to the host's formatting library and are taken as
      parameters; only the token layout around them is modelled. */
  datatype Format = Format(fixed6: real -> string, repr: real -> string)

  /** The export counters of `.tools.Stats`: shaders written, submesh names
      written, textures written. */
  class Stats {
    var materials: int
    var meshes: seq<string>
    var textures: int

    constructor()
      ensures materials == 0 && meshes == [] && textures == 0
    {
      materials := 0;
      meshes := [];
      textures := 0;
    }
  }

  // ---------------------------------------------------------------------
  // Decimal integers: `str(int)` and its inverse

  function DigitChar(d: nat): char
    requires d < 10
  {
    "0123456789"[d]
  }

  predicate IsDigit(c: char)
  {
    '0' <= c <= '9'
  }

  /** `str(n)` of a non-negative integer: its decimal digits, most significant first. */
  function NatText(n: nat): (s: string)
    ensures |s| > 0
    ensures forall i :: 0 <= i < |s| ==> IsDigit(s[i])
  {
    if n < 10 then [DigitChar(n)] else NatText(n / 10) + [DigitChar(n % 10)]
  }

  /** `str(n)` of any integer: a minus sign before the digits of a negative one. */
  function IntText(n: int): (s: string)
    ensures |s| > 0 && ' ' !in s
  {
    if n < 0 then "-" + NatText(-n) else NatText(n)
  }

  /** The value of a string of decimal digits. */
  function ParseNat(s: string): int
  {
    if |s| == 0 then 0
    else 10 * ParseNat(s[..|s| - 1]) + ((s[|s| - 1] as int) - ('0' as int))
  }

  /** Reads back what `IntText` writes. */
  function ParseInt(s: string): int
  {
    if |s| > 0 && s[0] == '-' then -ParseNat(s[1..]) else ParseNat(s)
  }

  lemma {:induction false} ParseNatText(n: nat)
    ensures ParseNat(NatText(n)) == n
  {
    if n >= 10 {
      var s := NatText(n);
      assert s[..|s| - 1] == NatText(n / 10);
      ParseNatText(n / 10);
    }
  }

  /** `str(int)` loses nothing: parsing the text gives the integer back. */
  lemma ParseIntText(n: int)
    ensures ParseInt(IntText(n)) == n
  {
    if n < 0 {
      var t := NatText(-n);
      assert IntText(n) == "-" + t;
      assert ("-" + t)[1..] == t;
      ParseNatText(-n);
    } else {
      var t := NatText(n);
      assert IntText(n) == t && IsDigit(t[0]);
      ParseNatText(n);
    }
  }

  // ---------------------------------------------------------------------
  // Space-separated tokens

  /** Position of the first space in `s`; `|s|` when there is none. */
  function FirstSpace(s: string): (k: nat)
    ensures k <= |s|
    ensures k < |s| ==> s[k] == ' '
    ensures forall j :: 0 <= j < k ==> s[j] != ' '
  {
    if |s| == 0 then 0
    else if s[0] == ' ' then 0
    else 1 + FirstSpace(s[1..])
  }

  /** `s.split(" ")`: the pieces between single spaces, empty pieces included. */
  function Fields(s: string): (r: seq<string>)
    ensures |r| > 0
    decreases |s|
  {
    var k := FirstSpace(s);
    if k == |s| then [s] else [s[..k]] + Fields(s[k + 1..])
  }

  /** A token without spaces, a space, then the rest: the token is the first field. */
  lemma FieldsCons(w: string, rest: string)
    requires ' ' !in w
    ensures Fields(w + " " + rest) == [w] + Fields(rest)
  {
    var s := w + " " + rest;
    assert s[|w|] == ' ';
    assert FirstSpace(s) == |w| by {
      forall j | 0 <= j < |w| ensures s[j] != ' ' {
        assert s[j] == w[j];
      }
      FirstSpaceIs(s, |w|);
    }
    assert s[..|w|] == w;
    assert s[|w| + 1..] == rest;
  }

  lemma {:induction false} FirstSpaceIs(s: string, k: nat)
    requires k < |s| && s[k] == ' '
    requires forall j :: 0 <= j < k ==> s[j] != ' '
    ensures FirstSpace(s) == k
  {
    if k > 0 {
      FirstSpaceIs(s[1..], k - 1);
    }
  }

  /** `" ".join(str(e) for e in xs)`: the decimal texts separated by single spaces. */
  function JoinInts(xs: seq<int>): (s: string)
    ensures |xs| == 0 <==> s == ""
  {
    if |xs| == 0 then ""
    else if |xs| == 1 then IntText(xs[0])
    else IntText(xs[0]) + " " + JoinInts(xs[1..])
  }

  /** Reads a list of integers back from its space-separated text. */
  function DecodeInts(s: string): seq<int>
  {
    if s == "" then [] else ParseAll(Fields(s))
  }

  function ParseAll(ws: seq<string>): seq<int>
  {
    if |ws| == 0 then [] else [ParseInt(ws[0])] + ParseAll(ws[1..])
  }

  lemma FieldsSingle(w: string)
    requires ' ' !in w
    ensures Fields(w) == [w]
  {
    assert FirstSpace(w) == |w|;
  }

  lemma ParseAllCons(w: string, ws: seq<string>)
    ensures ParseAll([w] + ws) == [ParseInt(w)] + ParseAll(ws)
  {
    assert ([w] + ws)[1..] == ws;
  }

  lemma {:induction false} JoinIntsFields(xs: seq<int>)
    requires |xs| > 0
    ensures ParseAll(Fields(JoinInts(xs))) == xs
  {
    var w := IntText(xs[0]);
    ParseIntText(xs[0]);
    if |xs| == 1 {
      FieldsSingle(w);
    } else {
      var rest := JoinInts(xs[1..]);
      assert JoinInts(xs) == w + " " + rest;
      FieldsCons(w, rest);
      JoinIntsFields(xs[1..]);
      ParseAllCons(w, Fields(rest));
      calc {
        ParseAll(Fields(JoinInts(xs)));
        ParseAll([w] + Fields(rest));
        [ParseInt(w)] + ParseAll(Fields(rest));
        [xs[0]] + xs[1..];
        xs;
      }
    }
  }

  /** The `int` rendering loses nothing: the joined text decodes to the list. */
  lemma JoinIntsRoundTrip(xs: seq<int>)
    ensures DecodeInts(JoinInts(xs)) == xs
  {
    if |xs| > 0 {
      JoinIntsFields(xs);
    }
  }

  // ---------------------------------------------------------------------
  // Float tuples: `(len(t) * "%.6f ") % t`

  /** One `"%.6f"` token followed by a space for each component, in order. */
  function Terminated(fmt: Format, cs: seq<real>): string
  {
    if |cs| == 0 then "" else fmt.fixed6(cs[0]) + " " + Terminated(fmt, cs[1..])
  }

  /** The text the writer accumulates over a list of tuples. */
  function TuplesText(fmt: Format, ts: seq<seq<real>>): string
  {
    if |ts| == 0 then "" else TuplesText(fmt, ts[..|ts| - 1]) + Terminated(fmt, ts[|ts| - 1])
  }

  /** The components of a list of tuples, in order. */
  function Flatten(ts: seq<seq<real>>): (cs: seq<real>)
  {
    if |ts| == 0 then [] else Flatten(ts[..|ts| - 1]) + ts[|ts| - 1]
  }

  /** The `"%.6f"` tokens of the components, in order. */
  function Tokens(fmt: Format, cs: seq<real>): (ws: seq<string>)
    ensures |ws| == |cs|
    ensures forall i :: 0 <= i < |cs| ==> ws[i] == fmt.fixed6(cs[i])
  {
    if |cs| == 0 then [] else [fmt.fixed6(cs[0])] + Tokens(fmt, cs[1..])
  }

  lemma {:induction false} TerminatedAppend(fmt: Format, a: seq<real>, b: seq<real>)
    ensures Terminated(fmt, a + b) == Terminated(fmt, a) + Terminated(fmt, b)
  {
    if |a| > 0 {
      assert (a + b)[1..] == a[1..] + b;
      TerminatedAppend(fmt, a[1..], b);
    } else {
      assert a + b == b;
    }
  }

  /** Tuple boundaries leave no trace: the text is the components' tokens. */
  lemma {:induction false} TuplesTextFlat(fmt: Format, ts: seq<seq<real>>)
    ensures TuplesText(fmt, ts) == Terminated(fmt, Flatten(ts))
  {
    if |ts| > 0 {
      TuplesTextFlat(fmt, ts[..|ts| - 1]);
      TerminatedAppend(fmt, Flatten(ts[..|ts| - 1]), ts[|ts| - 1]);
    }
  }

  /** Every `"%.6f"` token is non-empty and holds no space. */
  ghost predicate Tokenizable(fmt: Format)
  {
    forall x {:trigger fmt.fixed6(x)} :: |fmt.fixed6(x)| > 0 && ' ' !in fmt.fixed6(x)
  }

  lemma TokenClean(fmt: Format, x: real)
    requires Tokenizable(fmt)
    ensures |fmt.fixed6(x)| > 0 && ' ' !in fmt.fixed6(x)
  {
  }

  /** When no formatted number holds a space, splitting the text at spaces
      gives one token per component, in order, and a trailing empty piece. */
  lemma {:induction false} TerminatedFields(fmt: Format, cs: seq<real>)
    requires Tokenizable(fmt)
    ensures Fields(Terminated(fmt, cs)) == Tokens(fmt, cs) + [""]
  {
    if |cs| == 0 {
      assert FirstSpace("") == 0;
    } else {
      var w := fmt.fixed6(cs[0]);
      TokenClean(fmt, cs[0]);
      FieldsCons(w, Terminated(fmt, cs[1..]));
      TerminatedFields(fmt, cs[1..]);
    }
  }

  // ---------------------------------------------------------------------
  // The element of one entry

  /** `valueStr`: the text the writer computes, `None` for a texture. */
  function ValueText(fmt: Format, e: Entry): Option<string>
    requires WellTyped(e)
  {
    if e.kind == Int then Some(JoinInts(e.value.xs))
    else if e.kind == Texture then None
    else
      match e.value
      case Text(s) => Some(s)
      case Scalar(x) => Some(fmt.repr(x))
      case Whole(n) => Some(IntText(n))
      case Tuples(ts) => Some(TuplesText(fmt, ts))
      case Ints(_) => None
  }

  /** The element `writeGenericContent` returns for `e`. */
  function RenderEntry(fmt: Format, e: Entry): (n: Node)
    requires WellTyped(e)
    ensures n.Element? && n.tag == Tag(e.kind) && n.attrs == [("name", e.name)]
    ensures |n.children| <= 1
    ensures forall c :: c in n.children ==> c.TextNode? ==> c.text != ""
  {
    var children :=
      if e.kind == Texture then [Element("img", [("src", e.value.s)], [])]
      else
        var t := ValueText(fmt, e);
        if t.Some? && t.value != "" then [TextNode(t.value)] else [];
    Element(Tag(e.kind), [("name", e.name)], children)
  }

  /** An `int` entry holds one text node exactly when its list is non-empty,
      and that text decodes to the list. */
  lemma RenderInts(fmt: Format, e: Entry)
    requires WellTyped(e) && e.kind == Int
    ensures |e.value.xs| == 0 <==> RenderEntry(fmt, e).children == []
    ensures |e.value.xs| > 0 ==>
              exists t :: RenderEntry(fmt, e).children == [TextNode(t)] && DecodeInts(t) == e.value.xs
  {
    JoinIntsRoundTrip(e.value.xs);
    if |e.value.xs| > 0 {
      assert RenderEntry(fmt, e).children == [TextNode(JoinInts(e.value.xs))];
    }
  }

  /** A float-list entry holds the tokens of its components, one per
      component, each followed by a space; an empty list gives no text node. */
  lemma RenderTuples(fmt: Format, e: Entry)
    requires WellTyped(e) && e.kind != Texture && e.value.Tuples?
    requires Tokenizable(fmt)
    ensures |Flatten(e.value.ts)| == 0 ==> RenderEntry(fmt, e).children == []
    ensures |Flatten(e.value.ts)| > 0 ==>
              exists t :: RenderEntry(fmt, e).children == [TextNode(t)] &&
                          t == Terminated(fmt, Flatten(e.value.ts)) &&
                          Fields(t) == Tokens(fmt, Flatten(e.value.ts)) + [""]
  {
    var cs := Flatten(e.value.ts);
    TuplesTextFlat(fmt, e.value.ts);
    TerminatedFields(fmt, cs);
    if |cs| > 0 {
      assert |Terminated(fmt, cs)| > 0;
      assert RenderEntry(fmt, e).children == [TextNode(Terminated(fmt, cs))];
    }
  }

  /** A whole-number parameter holds one text node, `str` of the number,
      which reads back as that number. */
  lemma RenderWhole(fmt: Format, e: Entry)
    requires WellTyped(e) && e.kind != Texture && e.value.Whole?
    ensures exists t :: RenderEntry(fmt, e).children == [TextNode(t)] && ParseInt(t) == e.value.n
  {
    ParseIntText(e.value.n);
    assert RenderEntry(fmt, e).children == [TextNode(IntText(e.value.n))];
  }

  /** A string or float parameter holds `str` of its value as its one text
      node; an empty string gives no text node. */
  lemma RenderScalar(fmt: Format, e: Entry)
    requires WellTyped(e) && e.kind != Texture && (e.value.Text? || e.value.Scalar?)
    ensures var t := if e.value.Text? then e.value.s else fmt.repr(e.value.x);
            RenderEntry(fmt, e).children == (if t == "" then [] else [TextNode(t)])
  {
  }

  /** A texture entry holds exactly one `img` child whose `src` is the value. */
  lemma RenderTexture(fmt: Format, e: Entry)
    requires WellTyped(e) && e.kind == Texture
    ensures RenderEntry(fmt, e).children == [Element("img", [("src", e.value.s)], [])]
  {
  }

  /** `writeGenericContent`: builds the element of `entry`; a texture entry
      also counts one texture in `stats`. */
  method WriteGenericContent(fmt: Format, entry: Entry, stats: Stats?) returns (elem: Node)
    requires WellTyped(entry)
    requires entry.kind == Texture ==> stats != null
    modifies stats
    ensures elem == RenderEntry(fmt, entry)
    ensures stats != null ==> stats.materials == old(stats.materials) && stats.meshes == old(stats.meshes)
    ensures stats != null ==>
              stats.textures == old(stats.textures) + (if entry.kind == Texture then 1 else 0)
  {
    var children: seq<Node> := [];
    var valueStr: Option<string> := None;
    if entry.kind == Int {
      valueStr := Some(JoinInts(entry.value.xs));
    } else if entry.kind == Texture {
      children := children + [Element("img", [("src", entry.value.s)], [])];
      stats.textures := stats.textures + 1;
    } else if entry.value.Tuples? {
      var ts := entry.value.ts;
      var acc := "";
      for i := 0 to |ts|
        invariant acc == TuplesText(fmt, ts[..i])
      {
        assert ts[..i + 1][..i] == ts[..i];
        acc := acc + Terminated(fmt, ts[i]);
      }
      assert ts[..|ts|] == ts;
      valueStr := Some(acc);
    } else if entry.value.Text? {
      valueStr := Some(entry.value.s);
    } else if entry.value.Scalar? {
      valueStr := Some(fmt.repr(entry.value.x));
    } else {
      valueStr := Some(IntText(entry.value.n));
    }
    if valueStr.Some? && valueStr.value != "" {
      children := children + [TextNode(valueStr.value)];
    }
    elem := Element(Tag(entry.kind), [("name", entry.name)], children);
  }
}
