/** `is_dynamic_website`: the decision whether a page needs script execution,
    made from one probe GET of the URL. */
module Classifier {
  import opened Wrappers
  import opened PyString
  import opened Soup

  /** What one GET of a URL gives the scraper: the parsed page, or a failure
      with the exception's message. A failure stands for a transport error or
      timeout, a non-2xx status rejected by `raise_for_status`, and an
      exception while parsing the body alike. */
  datatype Response = Failure(message: string) | Page(doc: Document)

  /** Heuristic 1: fewer characters of text than this means dynamic. */
  const MinTextLength: nat := 100

  /** Heuristic 2: more `script` elements than this means dynamic. */
  const MaxScripts: nat := 10

  /** The three quantities the heuristics look at. */
  datatype Measurements = Measurements(textLength: nat, scriptCount: nat, hasMountPoint: bool)

  /** Measurements of the parsed probe page. The text length is taken from
      `get_text` on the whole tree, nothing removed first. */
  function Measure(doc: Document): Measurements {
    Measurements(
      |GetText(doc)|,
      |FindAll(doc, {"script"})|,
      FindById(doc, "root").Some? || FindById(doc, "app").Some?)
  }

  /** What the measurements mean for the tree: the script count is the
      number of `script` elements at any depth, and a mount point is any
      element, at any depth, with id `root` or `app`. */
  lemma ElementsMeasured(doc: Document)
    ensures Measure(doc).scriptCount == |Named(Elements(doc), {"script"})|
    ensures Measure(doc).hasMountPoint <==> exists k | 0 <= k < |Elements(doc)| ::
              HasId(Elements(doc)[k], "root") || HasId(Elements(doc)[k], "app")
  {
    FindAllIsNamed(doc, {"script"});
    FindByIdNone(doc, "root");
    FindByIdNone(doc, "app");
  }

  /** The heuristics in order; the first that fires answers "dynamic". */
  function Decide(m: Measurements): (dynamic: bool)
    ensures !dynamic <==> m.textLength >= MinTextLength && m.scriptCount <= MaxScripts && !m.hasMountPoint
  {
    if m.textLength < MinTextLength then true
    else if m.scriptCount > MaxScripts then true
    else if m.hasMountPoint then true
    else false
  }

  /** `is_dynamic_website` given the probe's response. Any failure of the
      probe, whatever its message, counts as dynamic. */
  function IsDynamicWebsite(probe: Response): (dynamic: bool)
    ensures probe.Failure? ==> dynamic
  {
    match probe
    case Failure(_) => true
    case Page(doc) => Decide(Measure(doc))
  }

  /** A page counts as static exactly when it has at least 100 characters of
      text, at most 10 `script` elements and no element with id `root` or
      `app`; breaking any one of the three makes it dynamic. Stated once over
      the queries the code makes and once over the elements of the tree. */
  lemma StaticExactlyWhen(doc: Document)
    ensures !IsDynamicWebsite(Page(doc)) <==>
              && |GetText(doc)| >= 100
              && |FindAll(doc, {"script"})| <= 10
              && FindById(doc, "root").None?
              && FindById(doc, "app").None?
    ensures var es := Elements(doc);
            !IsDynamicWebsite(Page(doc)) <==>
              && |GetText(doc)| >= 100
              && |Named(es, {"script"})| <= 10
              && forall k | 0 <= k < |es| :: !HasId(es[k], "root") && !HasId(es[k], "app")
  {
    ElementsMeasured(doc);
  }

  /** No less text, no more scripts and no new mount point never turn a
      static verdict into a dynamic one. */
  lemma DecideMonotone(m: Measurements, m': Measurements)
    requires m'.textLength >= m.textLength && m'.scriptCount <= m.scriptCount
    requires m'.hasMountPoint ==> m.hasMountPoint
    ensures !Decide(m) ==> !Decide(m')
  {
  }

  /** The rule as it would read if heuristic 1 measured the visible text
      (script, style and noscript removed) instead of all text. */
  function IsDynamicByVisibleText(doc: Document): bool {
    Decide(Measure(doc).(textLength := |VisibleText(doc)|))
  }

  /** Since text inside hidden elements also counts toward the threshold,
      every page that would be static under the visible-text rule is static
      under the rule as written. */
  lemma StaticByVisibleTextIsStatic(doc: Document)
    ensures !IsDynamicByVisibleText(doc) ==> !IsDynamicWebsite(Page(doc))
  {
    VisibleTextNoLonger(doc);
  }

  /** ... and the converse fails: a page whose only text, 100 characters,
      sits inside a `noscript` element has no visible text at all, yet is
      judged static. */
  lemma HiddenTextCountsTowardThreshold()
    ensures var doc := [Tag("noscript", None, [TextNode(seq(100, _ => 'x'))])];
            && !IsDynamicWebsite(Page(doc))
            && IsDynamicByVisibleText(doc)
            && VisibleText(doc) == ""
  {
    var s: string := seq(100, _ => 'x');
    var doc := [Tag("noscript", None, [TextNode(s)])];
    NoscriptOnly(s);
    assert GetText(doc) == s by {
      assert s[0] == 'x' && s[|s| - 1] == 'x';
      KeptStripped(s);
      assert [s][1..] == [];
      assert StrippedStrings([s]) == Kept(s) + StrippedStrings([]);
      assert JoinSpace([s]) == s;
    }
    StaticExactlyWhen(doc);
    assert VisibleText(doc) == "";
  }

  /** The queries on a page whose only content is one string inside `noscript`. */
  lemma NoscriptOnly(s: string)
    ensures var doc := [Tag("noscript", None, [TextNode(s)])];
            && AllStrings(doc) == [s]
            && FindAll(doc, {"script"}) == []
            && FindById(doc, "root") == None && FindById(doc, "app") == None
            && Decompose(doc) == []
  {
    var text := TextNode(s);
    var doc := [Tag("noscript", None, [text])];
    assert doc[1..] == [] && [text][1..] == [];
    assert "noscript" !in {"script"} by { assert |"noscript"| != |"script"|; }
    assert FindAll([text], {"script"}) == [];
    assert NodeFindAll(doc[0], {"script"}) == [];
    assert AllStrings([text]) == [s];
    assert FindById([text], "root") == None && FindById([text], "app") == None;
  }
}
