/** Paragraph extraction: the raw file text is split at blank lines
    (`"\n\n"`), every piece is trimmed, and a chain of `.filter` calls keeps
    the prose. The two loaders use different chains: the `Loose` profile of
    the ingestion script and the `Strict` profile of the search server's
    loader. */
module Paragraphs {
  import opened Strings
  import opened Sequences
  import Utf16

  /** One `.filter` call of a chain, applied to a trimmed piece. */
  datatype Test =
    | NotStartingWith(prefix: string)   // keeps pieces not opening with prefix
    | NotEndingWith(suffix: string)     // keeps pieces not closing with suffix
    | NotEmpty                          // keeps non-empty pieces
    | AtMost(max: nat)                  // keeps pieces of at most max code units
    | LongerThan(min: nat)              // keeps pieces of more than min code units
    | Defined                           // the check against `undefined`

  predicate Holds(t: Test, p: string) {
    match t
    case NotStartingWith(prefix) => !StartsWith(p, prefix)
    case NotEndingWith(suffix) => !EndsWith(p, suffix)
    case NotEmpty => p != ""
    case AtMost(max) => Utf16.Length(p) <= max
    case LongerThan(min) => Utf16.Length(p) > min
    case Defined => true   // `trim` always returns a string
  }

  datatype Profile = Loose | Strict

  /** The filter chains, in the order the sources apply them. */
  function Chain(profile: Profile): seq<Test> {
    match profile
    case Loose =>
      [ NotStartingWith("#"), NotStartingWith("---"), NotStartingWith("<"),
        NotStartingWith("import"), NotEmpty, AtMost(4000) ]
    case Strict =>
      [ Defined, NotStartingWith("|"), NotStartingWith("```"), NotEndingWith("```"),
        NotStartingWith("<"), NotStartingWith("---"), LongerThan(250) ]
  }

  /** `p` passes every test of `chain`. */
  predicate Accepts(chain: seq<Test>, p: string) {
    forall k :: 0 <= k < |chain| ==> Holds(chain[k], p)
  }

  /** A single pass that keeps the pieces `chain` accepts, in order, each
      as often as it occurs. */
  function Keep(chain: seq<Test>, ps: seq<string>): (r: seq<string>)
    ensures forall p :: p in r ==> Accepts(chain, p)
    ensures forall p :: p in ps && Accepts(chain, p) ==> p in r
    ensures forall p :: multiset(r)[p] == if Accepts(chain, p) then multiset(ps)[p] else 0
    ensures IsSubseq(r, ps)
    decreases |ps|
  {
    if |ps| == 0 then []
    else
      var rest := Keep(chain, ps[1..]);
      assert ps == [ps[0]] + ps[1..];
      assert forall p :: p in ps ==> p == ps[0] || p in ps[1..];
      if Accepts(chain, ps[0]) then
        var r := [ps[0]] + rest;
        assert r[1..] == rest;
        r
      else
        rest
  }

  /** The chain as written: one `.filter` call per test, left to right. */
  function RunChain(chain: seq<Test>, ps: seq<string>): seq<string>
    decreases |chain|
  {
    if |chain| == 0 then ps else RunChain(chain[1..], Keep([chain[0]], ps))
  }

  lemma AcceptsConcat(c1: seq<Test>, c2: seq<Test>, p: string)
    ensures Accepts(c1 + c2, p) <==> Accepts(c1, p) && Accepts(c2, p)
  {
    if Accepts(c1, p) && Accepts(c2, p) {
      forall k | 0 <= k < |c1 + c2| ensures Holds((c1 + c2)[k], p) {
        if k >= |c1| {
          assert (c1 + c2)[k] == c2[k - |c1|];
        }
      }
    }
    if Accepts(c1 + c2, p) {
      forall k | 0 <= k < |c1| ensures Holds(c1[k], p) {
        assert (c1 + c2)[k] == c1[k];
      }
      forall k | 0 <= k < |c2| ensures Holds(c2[k], p) {
        assert (c1 + c2)[|c1| + k] == c2[k];
      }
    }
  }

  lemma {:induction false} KeepCompose(c1: seq<Test>, c2: seq<Test>, ps: seq<string>)
    ensures Keep(c2, Keep(c1, ps)) == Keep(c1 + c2, ps)
    decreases |ps|
  {
    if |ps| > 0 {
      KeepCompose(c1, c2, ps[1..]);
      var p := ps[0];
      AcceptsConcat(c1, c2, p);
      if Accepts(c1, p) {
        assert ([p] + Keep(c1, ps[1..]))[1..] == Keep(c1, ps[1..]);
      }
    }
  }

  /** The `.filter` chain keeps exactly what the conjunction of its tests
      keeps, so the order of the tests does not matter. */
  lemma {:induction false} RunChainIsOnePass(chain: seq<Test>, ps: seq<string>)
    ensures RunChain(chain, ps) == Keep(chain, ps)
    decreases |chain|
  {
    if |chain| == 0 {
      KeepAll(chain, ps);
    } else {
      RunChainIsOnePass(chain[1..], Keep([chain[0]], ps));
      KeepCompose([chain[0]], chain[1..], ps);
      assert [chain[0]] + chain[1..] == chain;
    }
  }

  /** Filtering a list that the chain accepts throughout changes nothing. */
  lemma {:induction false} KeepAll(chain: seq<Test>, ps: seq<string>)
    requires forall k :: 0 <= k < |ps| ==> Accepts(chain, ps[k])
    ensures Keep(chain, ps) == ps
    decreases |ps|
  {
    if |ps| > 0 {
      KeepAll(chain, ps[1..]);
      assert ps == [ps[0]] + ps[1..];
    }
  }

  /** Trims every piece. */
  function TrimEach(ps: seq<string>): (r: seq<string>)
    ensures |r| == |ps|
    ensures forall k :: 0 <= k < |ps| ==> r[k] == Trim(ps[k])
    decreases |ps|
  {
    if |ps| == 0 then [] else [Trim(ps[0])] + TrimEach(ps[1..])
  }

  /** The trimmed blank-line-separated pieces of a file's raw text. */
  function Pieces(raw: string): seq<string> {
    TrimEach(Split(raw, "\n\n"))
  }

  /** The retained paragraphs of a file under a profile. */
  function Retained(profile: Profile, raw: string): seq<string> {
    RunChain(Chain(profile), Pieces(raw))
  }

  /** The loose chain accepts exactly the non-empty pieces of at most 4000
      code units that do not open with a heading, a front-matter delimiter,
      a tag or an import. */
  lemma LooseAcceptance(p: string)
    ensures Accepts(Chain(Loose), p) <==>
      && !StartsWith(p, "#") && !StartsWith(p, "---") && !StartsWith(p, "<")
      && !StartsWith(p, "import") && p != "" && Utf16.Length(p) <= 4000
  {
    var c := Chain(Loose);
    assert (Holds(c[0], p) && Holds(c[1], p) && Holds(c[2], p) && Holds(c[3], p)
            && Holds(c[4], p) && Holds(c[5], p)) ==> Accepts(c, p);
  }

  /** The strict chain accepts exactly the pieces longer than 250 code units
      that neither open with a table row, a code fence, a tag or a
      front-matter delimiter nor close with a code fence. */
  lemma StrictAcceptance(p: string)
    ensures Accepts(Chain(Strict), p) <==>
      && !StartsWith(p, "|") && !StartsWith(p, "```") && !EndsWith(p, "```")
      && !StartsWith(p, "<") && !StartsWith(p, "---") && Utf16.Length(p) > 250
  {
    var c := Chain(Strict);
    assert (Holds(c[0], p) && Holds(c[1], p) && Holds(c[2], p) && Holds(c[3], p)
            && Holds(c[4], p) && Holds(c[5], p) && Holds(c[6], p)) ==> Accepts(c, p);
  }

  /** Every paragraph the loose profile retains is a trimmed, non-empty
      piece of prose of at most 4000 code units. */
  lemma LooseParagraphsSound(raw: string)
    ensures forall p :: p in Retained(Loose, raw) ==>
      && IsTrimmed(p) && p != ""
      && !StartsWith(p, "#") && !StartsWith(p, "---") && !StartsWith(p, "<")
      && !StartsWith(p, "import") && Utf16.Length(p) <= 4000
  {
    forall p | p in Retained(Loose, raw)
      ensures IsTrimmed(p) && Accepts(Chain(Loose), p)
    {
      RetainedAreAcceptedPieces(Loose, raw, p);
    }
    forall p | p in Retained(Loose, raw)
      ensures !StartsWith(p, "#") && !StartsWith(p, "---") && !StartsWith(p, "<")
      ensures !StartsWith(p, "import") && p != "" && Utf16.Length(p) <= 4000
    {
      LooseAcceptance(p);
    }
  }

  /** Every paragraph the strict profile retains is trimmed, longer than 250
      code units, and neither a table, a code block, markup nor front
      matter. */
  lemma StrictParagraphsSound(raw: string)
    ensures forall p :: p in Retained(Strict, raw) ==>
      && IsTrimmed(p) && Utf16.Length(p) > 250
      && !StartsWith(p, "|") && !StartsWith(p, "```") && !EndsWith(p, "```")
      && !StartsWith(p, "<") && !StartsWith(p, "---")
  {
    forall p | p in Retained(Strict, raw)
      ensures IsTrimmed(p) && Accepts(Chain(Strict), p)
    {
      RetainedAreAcceptedPieces(Strict, raw, p);
    }
    forall p | p in Retained(Strict, raw)
      ensures !StartsWith(p, "|") && !StartsWith(p, "```") && !EndsWith(p, "```")
      ensures !StartsWith(p, "<") && !StartsWith(p, "---") && Utf16.Length(p) > 250
    {
      StrictAcceptance(p);
    }
  }

  lemma RetainedAreAcceptedPieces(profile: Profile, raw: string, p: string)
    requires p in Retained(profile, raw)
    ensures p in Pieces(raw) && IsTrimmed(p) && Accepts(Chain(profile), p)
  {
    KeptAreAccepted(Chain(profile), Pieces(raw), p);
    PiecesAreTrimmed(raw, p);
  }

  lemma KeptAreAccepted(chain: seq<Test>, ps: seq<string>, p: string)
    requires p in RunChain(chain, ps)
    ensures p in ps && Accepts(chain, p)
  {
    RunChainIsOnePass(chain, ps);
    SubseqMembers(Keep(chain, ps), ps);
  }

  lemma PiecesAreTrimmed(raw: string, p: string)
    requires p in Pieces(raw)
    ensures IsTrimmed(p)
  {
    var parts := Split(raw, "\n\n");
    var k :| 0 <= k < |parts| && Pieces(raw)[k] == p;
    assert p == Trim(parts[k]);
  }

  /** The retained paragraphs are the accepted pieces, every one of them
      and each as often as it occurs, in their original order. */
  lemma ParagraphsOrdered(profile: Profile, raw: string)
    ensures IsSubseq(Retained(profile, raw), Pieces(raw))
    ensures forall p :: p in Pieces(raw) ==>
              (p in Retained(profile, raw) <==> Accepts(Chain(profile), p))
    ensures forall p :: multiset(Retained(profile, raw))[p] ==
              if Accepts(Chain(profile), p) then multiset(Pieces(raw))[p] else 0
  {
    RunChainIsOnePass(Chain(profile), Pieces(raw));
    SubseqMembers(Retained(profile, raw), Pieces(raw));
  }

  /** Running the filter chain again over its own output changes nothing. */
  lemma ParagraphsIdempotent(profile: Profile, raw: string)
    ensures RunChain(Chain(profile), Retained(profile, raw)) == Retained(profile, raw)
  {
    var chain, ps := Chain(profile), Retained(profile, raw);
    RunChainIsOnePass(chain, Pieces(raw));
    assert forall k :: 0 <= k < |ps| ==> Accepts(chain, ps[k]) by {
      forall k | 0 <= k < |ps| ensures Accepts(chain, ps[k]) {
        assert ps[k] in ps;
      }
    }
    KeepAll(chain, ps);
    RunChainIsOnePass(chain, ps);
  }

  /** The strict chain's `p !== undefined` filter removes nothing. */
  lemma DefinedRemovesNothing(ps: seq<string>)
    ensures Keep([Defined], ps) == ps
  {
    KeepAll([Defined], ps);
  }

  /** The profiles are different predicates. A piece opening with a
      heading marker or an import is always dropped by the loose chain; the
      strict chain keeps it exactly when it is longer than 250 code units
      and does not close with a code fence. */
  lemma HeadingsAndImports(p: string)
    requires StartsWith(p, "#") || StartsWith(p, "import")
    ensures !Accepts(Chain(Loose), p)
    ensures Accepts(Chain(Strict), p) <==> !EndsWith(p, "```") && Utf16.Length(p) > 250
  {
    LooseAcceptance(p);
    StrictAcceptance(p);
    assert p[0] == '#' || p[0] == 'i' by {
      if StartsWith(p, "#") {
        assert p[..1][0] == p[0];
      } else {
        assert p[..6][0] == p[0];
      }
    }
    assert !StartsWith(p, "|") && !StartsWith(p, "<") by {
      assert p[..1][0] == p[0];
    }
    assert !StartsWith(p, "```") && !StartsWith(p, "---") by {
      if |p| >= 3 { assert p[..3][0] == p[0]; }
    }
  }

  /** For instance, a long heading passes the strict chain only, ... */
  lemma LongHeadingStrictOnly(body: string)
    requires forall k :: 0 <= k < |body| ==> body[k] == 'a'
    requires |body| > 250
    ensures Accepts(Chain(Strict), "# " + body)
    ensures !Accepts(Chain(Loose), "# " + body)
  {
    var heading := "# " + body;
    Utf16.LengthOfBmp(heading);
    assert heading[..1] == "#";
    assert heading[|heading| - 1] == 'a';
    HeadingsAndImports(heading);
  }

  /** ... and a short piece of prose passes the loose chain only: at most
      125 characters are at most 250 code units. */
  lemma ShortSentenceLooseOnly(p: string)
    requires 0 < |p| <= 125
    requires p[0] != '#' && p[0] != '-' && p[0] != '<' && p[0] != 'i'
    ensures Accepts(Chain(Loose), p) && !Accepts(Chain(Strict), p)
  {
    LooseAcceptance(p);
    StrictAcceptance(p);
    assert !StartsWith(p, "#") && !StartsWith(p, "<") by {
      assert p[..1][0] == p[0];
    }
    assert !StartsWith(p, "---") by {
      if |p| >= 3 { assert p[..3][0] == p[0]; }
    }
    assert !StartsWith(p, "import") by {
      if |p| >= 6 { assert p[..6][0] == p[0]; }
    }
  }

  lemma JoinHead(parts: seq<string>, sep: string)
    requires |parts| > 1
    ensures Join(parts, sep) == parts[0] + sep + Join(parts[1..], sep)
  {
  }

  /** The first blank-line piece of a text opening with `---` opens with
      `---` too: no blank line fits inside the dashes. */
  lemma FirstPieceOfDashes(raw: string)
    requires StartsWith(raw, "---")
    ensures StartsWith(Split(raw, "\n\n")[0], "---")
  {
    var parts := Split(raw, "\n\n");
    var first := parts[0];
    if |parts| > 1 {
      JoinHead(parts, "\n\n");
      assert raw[|first|] == '\n';
      assert raw[..3] == "---";
      assert forall k :: 0 <= k < 3 ==> raw[k] == '-';
      assert |first| >= 3;
      assert first[..3] == raw[..3];
    }
  }

  /** Only the first piece of a front-matter block is dropped: a block with
      a blank line inside is cut there, and its later lines form a piece of
      their own, which a profile keeps whenever that piece passes its
      chain. */
  lemma FrontMatterTailKept(profile: Profile, a: string, b: string, c: string)
    requires !Contains(a + "\n", "\n\n") && !Contains(b + "\n", "\n\n")
    requires IsTrimmed(b) && Accepts(Chain(profile), b)
    ensures b in Retained(profile, a + "\n\n" + b + "\n\n" + c)
  {
    var raw := a + "\n\n" + b + "\n\n" + c;
    assert raw == a + "\n\n" + (b + "\n\n" + c);
    assert "\n\n"[..1] == "\n";
    SplitAtFirst(a, "\n\n", b + "\n\n" + c);
    SplitAtFirst(b, "\n\n", c);
    assert Split(raw, "\n\n")[1] == b;
    TrimTrimmed(b);
    assert Pieces(raw)[1] == b;
    ParagraphsOrdered(profile, raw);
  }

  /** A file opening with a front-matter block yields a first piece that
      starts with `---`, which both profiles drop. */
  lemma FrontMatterBlockDropped(profile: Profile, raw: string)
    requires StartsWith(raw, "---")
    ensures |Pieces(raw)| > 0 && StartsWith(Pieces(raw)[0], "---")
    ensures !Accepts(Chain(profile), Pieces(raw)[0])
  {
    var first := Split(raw, "\n\n")[0];
    FirstPieceOfDashes(raw);
    TrimKeepsPrefix(first, "---");
    var p := Pieces(raw)[0];
    assert p == Trim(first);
    LooseAcceptance(p);
    StrictAcceptance(p);
  }
}
