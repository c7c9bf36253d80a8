/** The navigation tree (src/navigation.rs): the default tree built from the
    documentation, and its customisation by the rules of `doctave.yaml`.

    The default tree's builder, `Directory::links`, is defined here from the
    navigation tests: each directory lists its pages other than the index,
    and one link per subdirectory (titled and addressed by that directory's
    index), in a single list stably sorted by title in natural order. */
module Navigation {
  import opened Outcomes
  import Text
  import opened Paths
  import opened Uris
  import opened Documents
  import opened Config

  /** A navigation entry: a URI under the base path, a title, and nested entries. */
  datatype Link = Link(path: string, title: string, children: seq<Link>)

  datatype NavError = NoMatchingLink(rulePath: Path)

  // ---------------------------------------------------------------------
  // Natural ("alphanumeric") order of titles
  // ---------------------------------------------------------------------

  /** A title read as runs of digits, compared by value, and single other characters. */
  datatype Token = Num(value: nat) | Chr(c: char)

  /** The length of the run of digits at the start of `s`. */
  function DigitRun(s: string): (n: nat)
    ensures n <= |s|
    ensures Text.AllDigits(s[..n])
    ensures n < |s| ==> !Text.IsDigit(s[n])
  {
    if |s| == 0 || !Text.IsDigit(s[0]) then 0
    else
      var n := 1 + DigitRun(s[1..]);
      assert s[..n] == [s[0]] + s[1..][..n - 1];
      n
  }

  function Tokens(s: string): seq<Token>
    decreases |s|
  {
    if |s| == 0 then []
    else if Text.IsDigit(s[0]) then
      var n := DigitRun(s);
      [Num(Text.DigitsValue(s[..n]))] + Tokens(s[n..])
    else [Chr(s[0])] + Tokens(s[1..])
  }

  /** Numbers compare by value; a number sorts after a character below `0`
      and before any other, as its digits would. */
  predicate TokenLess(a: Token, b: Token) {
    match (a, b)
    case (Num(x), Num(y)) => x < y
    case (Chr(x), Chr(y)) => x < y
    case (Num(_), Chr(y)) => y >= '0'
    case (Chr(x), Num(_)) => x < '0'
  }

  /** Lexicographic order of token lists; a proper prefix comes first. */
  predicate TokensLess(a: seq<Token>, b: seq<Token>) {
    if |a| == 0 then |b| > 0
    else if |b| == 0 then false
    else if TokenLess(a[0], b[0]) then true
    else if a[0] == b[0] then TokensLess(a[1..], b[1..])
    else false
  }

  /** Title order of the default navigation. */
  predicate TitleLess(s: string, t: string) {
    TokensLess(Tokens(s), Tokens(t))
  }

  lemma TokenTrichotomy(a: Token, b: Token)
    ensures !(TokenLess(a, b) && TokenLess(b, a))
    ensures a == b || TokenLess(a, b) || TokenLess(b, a)
  {
  }

  /** The order is a strict order up to equal token lists: at most one of
      `a < b`, `b < a` holds, and neither holds only for equal lists. */
  lemma {:induction false} TokensTrichotomy(a: seq<Token>, b: seq<Token>)
    ensures !(TokensLess(a, b) && TokensLess(b, a))
    ensures a == b || TokensLess(a, b) || TokensLess(b, a)
  {
    if |a| > 0 && |b| > 0 {
      TokenTrichotomy(a[0], b[0]);
      TokensTrichotomy(a[1..], b[1..]);
      if a[0] == b[0] && a[1..] == b[1..] {
        assert a == [a[0]] + a[1..] && b == [b[0]] + b[1..];
      }
    }
  }

  /** Numbers sort by value: `2` comes before `11`, and `11` before `AA`, `AA` before `bb`. */
  lemma NaturalOrderExamples()
    ensures TitleLess("2", "11") && !TitleLess("11", "2")
    ensures TitleLess("11", "AA") && TitleLess("AA", "bb")
  {
    assert Tokens("2") == [Num(2)] by {
      assert DigitRun("2") == 1;
      assert "2"[..1] == "2";
    }
    assert Tokens("11") == [Num(11)] by {
      assert DigitRun("11") == 2;
      assert "11"[..2] == "11";
      assert Text.DigitsValue("11") == 11 by {
        assert "11"[..1] == "1";
      }
    }
    assert Tokens("AA") == [Chr('A'), Chr('A')] by {
      assert "AA"[1..] == "A";
    }
    assert Tokens("bb") == [Chr('b'), Chr('b')] by {
      assert "bb"[1..] == "b";
    }
  }

  // ---------------------------------------------------------------------
  // Stable insertion sort by title
  // ---------------------------------------------------------------------

  /** Insert after every link whose title is not greater, so equal titles keep their order. */
  function Insert(x: Link, sorted: seq<Link>): (r: seq<Link>)
    ensures multiset(r) == multiset(sorted) + multiset{x}
    ensures |r| == |sorted| + 1
  {
    if |sorted| == 0 then [x]
    else if TitleLess(x.title, sorted[0].title) then [x] + sorted
    else
      var rest := Insert(x, sorted[1..]);
      assert sorted == [sorted[0]] + sorted[1..];
      [sorted[0]] + rest
  }

  function SortByTitle(links: seq<Link>): (r: seq<Link>)
    ensures multiset(r) == multiset(links)
  {
    if |links| == 0 then []
    else
      assert links == links[..|links| - 1] + [links[|links| - 1]];
      Insert(links[|links| - 1], SortByTitle(links[..|links| - 1]))
  }

  /** No link is followed by one with a smaller title. */
  predicate Sorted(links: seq<Link>) {
    forall i :: 0 < i < |links| ==> !TitleLess(links[i].title, links[i - 1].title)
  }

  lemma {:induction false} InsertSorted(x: Link, sorted: seq<Link>)
    requires Sorted(sorted)
    ensures Sorted(Insert(x, sorted))
    ensures |sorted| > 0 ==> Insert(x, sorted)[0] == x || Insert(x, sorted)[0] == sorted[0]
  {
    if |sorted| > 0 {
      var r := Insert(x, sorted);
      if TitleLess(x.title, sorted[0].title) {
        TokensTrichotomy(Tokens(x.title), Tokens(sorted[0].title));
        assert r == [x] + sorted;
        forall i | 0 < i < |r|
          ensures !TitleLess(r[i].title, r[i - 1].title)
        {
          if i > 1 {
            assert r[i] == sorted[i - 1] && r[i - 1] == sorted[i - 2];
          }
        }
      } else {
        var rest := Insert(x, sorted[1..]);
        assert Sorted(sorted[1..]) by {
          forall i | 0 < i < |sorted[1..]|
            ensures !TitleLess(sorted[1..][i].title, sorted[1..][i - 1].title)
          {
            assert sorted[1..][i] == sorted[i + 1] && sorted[1..][i - 1] == sorted[i];
          }
        }
        InsertSorted(x, sorted[1..]);
        assert r == [sorted[0]] + rest;
        TokensTrichotomy(Tokens(x.title), Tokens(sorted[0].title));
        forall i | 0 < i < |r|
          ensures !TitleLess(r[i].title, r[i - 1].title)
        {
          if i == 1 {
            if |sorted| > 1 && rest[0] == sorted[1] {
              assert sorted[1] == sorted[1..][0];
            }
          } else {
            assert r[i] == rest[i - 1] && r[i - 1] == rest[i - 2];
          }
        }
      }
    }
  }

  /** The default order: sorted by title, and a permutation of the input. */
  lemma {:induction false} SortByTitleSorted(links: seq<Link>)
    ensures Sorted(SortByTitle(links))
    ensures multiset(SortByTitle(links)) == multiset(links)
  {
    if |links| > 0 {
      SortByTitleSorted(links[..|links| - 1]);
      InsertSorted(links[|links| - 1], SortByTitle(links[..|links| - 1]));
    }
  }

  // ---------------------------------------------------------------------
  // The default tree (`Directory::links`)
  // ---------------------------------------------------------------------

  /** A page that can be linked to: a stem to name it after. */
  predicate Linkable(d: Document) {
    FileStem(d.path).Some?
  }

  /** Index of the directory's `README.md` page, if there is one. */
  function IndexOf(docs: seq<Document>): (r: Option<nat>)
    ensures r.Some? ==> r.value < |docs| && docs[r.value].rename.Some?
    ensures r.None? ==> forall i :: 0 <= i < |docs| ==> docs[i].rename.None?
  {
    if |docs| == 0 then None
    else if docs[0].rename.Some? then Some(0)
    else match IndexOf(docs[1..])
      case None => None
      case Some(i) => Some(i + 1)
  }

  /** What the default tree needs: every directory, at every depth, has an
      index page, and every page has a stem. */
  predicate Indexed(dir: Directory) {
    && IndexOf(dir.docs).Some?
    && (forall i :: 0 <= i < |dir.docs| ==> Linkable(dir.docs[i]))
    && (forall j :: 0 <= j < |dir.dirs| ==> Indexed(dir.dirs[j]))
  }

  function PageLink(d: Document, base: string): Link
    requires Linkable(d)
  {
    Link(UriPath(d, base), Documents.Title(d), [])
  }

  /** Links to the pages that are not the directory's index, in their order. */
  function PageLinks(docs: seq<Document>, base: string): (r: seq<Link>)
    requires forall i :: 0 <= i < |docs| ==> Linkable(docs[i])
    ensures |r| <= |docs|
  {
    if |docs| == 0 then []
    else
      var rest := PageLinks(docs[1..], base);
      if docs[0].rename.Some? then rest else [PageLink(docs[0], base)] + rest
  }

  /** The link of a directory: its index page's URI and title, with its own
      default links as children. */
  function DirLink(dir: Directory, base: string): Link
    requires Indexed(dir)
    decreases dir, 1
  {
    var index := dir.docs[IndexOf(dir.docs).value];
    Link(UriPath(index, base), Documents.Title(index), DefaultLinks(dir, base))
  }

  function DirLinksOf(dirs: seq<Directory>, base: string): (r: seq<Link>)
    requires forall j :: 0 <= j < |dirs| ==> Indexed(dirs[j])
    decreases dirs, 0
    ensures |r| == |dirs|
  {
    if |dirs| == 0 then []
    else [DirLink(dirs[0], base)] + DirLinksOf(dirs[1..], base)
  }

  /** `Directory::links`: pages and subdirectories in one list sorted by title. */
  function DefaultLinks(dir: Directory, base: string): (r: seq<Link>)
    requires Indexed(dir)
    decreases dir, 0
    ensures multiset(r) == multiset(PageLinks(dir.docs, base) + DirLinksOf(dir.dirs, base))
  {
    SortByTitle(PageLinks(dir.docs, base) + DirLinksOf(dir.dirs, base))
  }

  /** Every link in the tree lies under the base path. */
  predicate AllUnder(links: seq<Link>, base: string) {
    forall l :: l in links ==> StripBase(l.path, base).Some? && AllUnder(l.children, base)
  }

  /** Every sibling list in the tree is sorted by title. */
  predicate AllSorted(links: seq<Link>) {
    Sorted(links) && forall l :: l in links ==> AllSorted(l.children)
  }

  /** A link under the base path whose subtree is under it and sorted. */
  predicate WellPlaced(l: Link, base: string) {
    StripBase(l.path, base).Some? && AllUnder(l.children, base) && AllSorted(l.children)
  }

  /** The default tree places every URI under the base path and sorts every
      level by title. */
  lemma {:induction false} DefaultTreeShape(dir: Directory, base: string)
    requires Indexed(dir)
    decreases dir, 1
    ensures AllUnder(DefaultLinks(dir, base), base)
    ensures AllSorted(DefaultLinks(dir, base))
  {
    var pages := PageLinks(dir.docs, base);
    var subs := DirLinksOf(dir.dirs, base);
    var all := pages + subs;
    PageLinksShape(dir.docs, base);
    DirLinksShape(dir.dirs, base);
    var r := DefaultLinks(dir, base);
    SortByTitleSorted(all);
    forall l | l in r
      ensures WellPlaced(l, base)
    {
      assert l in multiset(all);
    }
  }

  lemma {:induction false} PageLinksShape(docs: seq<Document>, base: string)
    requires forall i :: 0 <= i < |docs| ==> Linkable(docs[i])
    ensures forall l :: l in PageLinks(docs, base) ==> WellPlaced(l, base)
  {
    if |docs| > 0 {
      PageLinksShape(docs[1..], base);
      var rest := PageLinks(docs[1..], base);
      if docs[0].rename.None? {
        var first := PageLink(docs[0], base);
        assert AllUnder([], base) && AllSorted([]);
        assert WellPlaced(first, base);
        assert PageLinks(docs, base) == [first] + rest;
      }
    }
  }

  lemma {:induction false} DirLinksShape(dirs: seq<Directory>, base: string)
    requires forall j :: 0 <= j < |dirs| ==> Indexed(dirs[j])
    decreases dirs, 0
    ensures forall l :: l in DirLinksOf(dirs, base) ==> WellPlaced(l, base)
  {
    if |dirs| > 0 {
      DefaultTreeShape(dirs[0], base);
      DirLinksShape(dirs[1..], base);
    }
  }

  // ---------------------------------------------------------------------
  // Customisation (`customize` and `find_matching_link`)
  // ---------------------------------------------------------------------

  /** The rule path without its first (docs directory) component. */
  function WithoutDocsPart(p: Path): Path {
    if |p| == 0 then [] else p[1..]
  }

  /** What `find_matching_link` compares link paths with: the URI of the
      rule path without its docs part, leading slashes trimmed. */
  function RuleTarget(rulePath: Path): string {
    Text.TrimStart(PathToUri(WithoutDocsPart(rulePath)), '/')
  }

  /** The comparison of `find_matching_link`: the link path without the base
      path, leading slashes trimmed, equals the target. A link outside the
      base path never matches; the source's `unwrap` panics on one, and no
      default tree has one (`DefaultTreeShape`). */
  predicate Matches(link: Link, target: string, base: string) {
    match StripBase(link.path, base)
    case None => false
    case Some(rest) => Text.TrimStart(rest, '/') == target
  }

  /** Index of the first link of this level that matches. */
  function FirstMatch(links: seq<Link>, target: string, base: string): (r: Option<nat>)
    ensures r.Some? ==> r.value < |links| && Matches(links[r.value], target, base)
    ensures r.Some? ==> forall i :: 0 <= i < r.value ==> !Matches(links[i], target, base)
    ensures r.None? ==> forall i :: 0 <= i < |links| ==> !Matches(links[i], target, base)
  {
    if |links| == 0 then None
    else if Matches(links[0], target, base) then Some(0)
    else
      match FirstMatch(links[1..], target, base)
      case None => None
      case Some(i) => Some(i + 1)
  }

  /** The search of `find_matching_link`: the first match of this level,
      otherwise the first result of searching each link's children in turn. */
  function FindLink(target: string, links: seq<Link>, base: string): (r: Option<Link>)
    decreases links, 1
  {
    match FirstMatch(links, target, base)
    case Some(i) => Some(links[i])
    case None => FindInChildren(target, links, base)
  }

  /** The first `Some` among the searches of each link's children. */
  function FindInChildren(target: string, links: seq<Link>, base: string): (r: Option<Link>)
    decreases links, 0
  {
    if |links| == 0 then None
    else
      match FindLink(target, links[0].children, base)
      case Some(l) => Some(l)
      case None => FindInChildren(target, links[1..], base)
  }

  /** `find_matching_link`. */
  function FindMatchingLink(rulePath: Path, links: seq<Link>, base: string): Option<Link> {
    FindLink(RuleTarget(rulePath), links, base)
  }

  /** Every link of the tree, each followed by its descendants. */
  function Flatten(links: seq<Link>): (r: seq<Link>)
    decreases links
  {
    if |links| == 0 then []
    else [links[0]] + Flatten(links[0].children) + Flatten(links[1..])
  }

  /** No link of the list matches. */
  predicate NoneMatch(flat: seq<Link>, target: string, base: string) {
    forall l :: l in flat ==> !Matches(l, target, base)
  }

  /** The search is sound and complete: it finds a link exactly when some link
      of the tree matches, and what it finds is a matching link of the tree. */
  lemma {:induction false} FindLinkCorrect(target: string, links: seq<Link>, base: string)
    decreases links, 1
    ensures FindLink(target, links, base).Some? ==>
      var l := FindLink(target, links, base).value;
      l in Flatten(links) && Matches(l, target, base)
    ensures FindLink(target, links, base).None? <==> NoneMatch(Flatten(links), target, base)
  {
    match FirstMatch(links, target, base)
    case Some(i) =>
      FlattenHasLevel(links, i);
    case None =>
      FindInChildrenCorrect(target, links, base);
  }

  /** Every link of the level appears in the flattened tree. */
  lemma {:induction false} FlattenHasLevel(links: seq<Link>, i: nat)
    requires i < |links|
    decreases links
    ensures links[i] in Flatten(links)
  {
    if i > 0 {
      FlattenHasLevel(links[1..], i - 1);
      assert links[i] == links[1..][i - 1];
    }
  }

  /** A flattened non-empty list is its head, the head's subtree, then the rest's. */
  lemma FlattenSplit(links: seq<Link>)
    requires |links| > 0
    ensures forall l :: l in Flatten(links) <==>
      l == links[0] || l in Flatten(links[0].children) || l in Flatten(links[1..])
  {
    assert Flatten(links) == [links[0]] + Flatten(links[0].children) + Flatten(links[1..]);
  }

  lemma {:induction false} FindInChildrenCorrect(target: string, links: seq<Link>, base: string)
    requires FirstMatch(links, target, base).None?
    decreases links, 0
    ensures FindInChildren(target, links, base).Some? ==>
      var l := FindInChildren(target, links, base).value;
      l in Flatten(links) && Matches(l, target, base)
    ensures FindInChildren(target, links, base).None? <==> NoneMatch(Flatten(links), target, base)
  {
    if |links| > 0 {
      var rest := links[1..];
      assert FirstMatch(rest, target, base).None? by {
        assert forall i :: 0 <= i < |rest| ==> rest[i] == links[i + 1];
      }
      FindLinkCorrect(target, links[0].children, base);
      FindInChildrenCorrect(target, rest, base);
      FlattenSplit(links);
      assert !Matches(links[0], target, base);
    }
  }

  /** A level match is preferred over any deeper one: the result is the
      first matching link of the level when there is one, whatever the
      children hold. */
  lemma LevelFirst(target: string, links: seq<Link>, base: string, i: nat)
    requires i < |links| && Matches(links[i], target, base)
    requires forall k :: 0 <= k < i ==> !Matches(links[k], target, base)
    ensures FindLink(target, links, base) == Some(links[i])
  {
    var r := FirstMatch(links, target, base);
    assert r.Some? && r.value == i;
  }

  /** Without a match on the level, the result is the first found among the
      children, in order. */
  lemma ChildrenInOrder(target: string, links: seq<Link>, base: string, j: nat)
    requires FirstMatch(links, target, base).None?
    requires j < |links| && FindLink(target, links[j].children, base).Some?
    requires forall k :: 0 <= k < j ==> FindLink(target, links[k].children, base).None?
    ensures FindLink(target, links, base) == FindLink(target, links[j].children, base)
  {
    FindInChildrenAt(target, links, base, j);
  }

  lemma {:induction false} FindInChildrenAt(target: string, links: seq<Link>, base: string, j: nat)
    requires j < |links| && FindLink(target, links[j].children, base).Some?
    requires forall k :: 0 <= k < j ==> FindLink(target, links[k].children, base).None?
    ensures FindInChildren(target, links, base) == FindLink(target, links[j].children, base)
  {
    if j > 0 {
      var rest := links[1..];
      assert rest[j - 1] == links[j];
      assert forall k :: 0 <= k < j - 1 ==> rest[k] == links[k + 1];
      FindInChildrenAt(target, rest, base, j - 1);
    }
  }

  /** Every rule's path, at every depth of nesting, finds a link. */
  predicate AllRulesMatch(rules: seq<NavRule>, default: seq<Link>, base: string)
    decreases rules, 1
  {
    forall i :: 0 <= i < |rules| ==> RuleMatches(rules[i], default, base)
  }

  /** The rule's path finds a link, and so do its nested rules, if any. */
  predicate RuleMatches(rule: NavRule, default: seq<Link>, base: string)
    decreases rule, 0
  {
    && FindMatchingLink(rule.path, default, base).Some?
    && (rule.Dir? && rule.children.Some? && rule.children.value.Explicit? ==>
          AllRulesMatch(rule.children.value.rules, default, base))
  }

  /** The link one rule yields: the matched link, with its children dropped
      (`Dir` without a rule), kept (`WildCard`) or customised from the whole
      default tree (`Explicit`). */
  function ApplyRule(rule: NavRule, link: Link, default: seq<Link>, base: string): (r: Result<Link, NavError>)
    decreases rule, 0
    ensures r.Ok? ==> r.value.path == link.path && r.value.title == link.title
    ensures rule.Dir? && rule.children.None? ==> r == Ok(link.(children := []))
    ensures rule.File? || rule.children == Some(WildCard) ==> r == Ok(link)
  {
    match rule
    case File(_) => Ok(link)
    case Dir(_, None) => Ok(link.(children := []))
    case Dir(_, Some(WildCard)) => Ok(link)
    case Dir(_, Some(Explicit(nested))) =>
      match Customize(nested, default, base)
      case Err(e) => Err(e)
      case Ok(children) => Ok(link.(children := children))
  }

  /** `Navigation::customize`: one link per rule, in rule order; a rule whose
      path matches no link is an error (the source's `expect` panics). */
  function Customize(rules: seq<NavRule>, default: seq<Link>, base: string): (r: Result<seq<Link>, NavError>)
    decreases rules
    ensures r.Ok? ==> |r.value| == |rules|
  {
    if |rules| == 0 then Ok([])
    else
      match FindMatchingLink(rules[0].path, default, base)
      case None => Err(NoMatchingLink(rules[0].path))
      case Some(link) =>
        match ApplyRule(rules[0], link, default, base)
        case Err(e) => Err(e)
        case Ok(first) =>
          match Customize(rules[1..], default, base)
          case Err(e) => Err(e)
          case Ok(rest) => Ok([first] + rest)
  }

  /** Customisation succeeds exactly when every rule, at every depth, finds a link. */
  lemma {:induction false} CustomizeOkIff(rules: seq<NavRule>, default: seq<Link>, base: string)
    decreases rules, 1
    ensures Customize(rules, default, base).Ok? <==> AllRulesMatch(rules, default, base)
  {
    if |rules| > 0 {
      var rest := rules[1..];
      CustomizeOkIff(rest, default, base);
      RuleOkIff(rules[0], default, base);
      assert forall i :: 0 < i < |rules| ==> rules[i] == rest[i - 1];
      assert AllRulesMatch(rules, default, base)
        <==> RuleMatches(rules[0], default, base) && AllRulesMatch(rest, default, base);
    }
  }

  /** One rule applies exactly when it matches, nested rules included. */
  lemma {:induction false} RuleOkIff(rule: NavRule, default: seq<Link>, base: string)
    decreases rule, 0
    ensures FindMatchingLink(rule.path, default, base).Some? ==>
      (ApplyRule(rule, FindMatchingLink(rule.path, default, base).value, default, base).Ok? <==>
         RuleMatches(rule, default, base))
  {
    if rule.Dir? && rule.children.Some? && rule.children.value.Explicit? {
      CustomizeOkIff(rule.children.value.rules, default, base);
    }
  }

  /** `out` is what `rule` yields: the rule's matched link with the
      children the rule selects. */
  predicate Yields(rule: NavRule, out: Link, default: seq<Link>, base: string) {
    && FindMatchingLink(rule.path, default, base).Some?
    && ApplyRule(rule, FindMatchingLink(rule.path, default, base).value, default, base) == Ok(out)
  }

  /** Each output link is what its rule yields; in particular it has the
      path and title of the rule's matched link. */
  lemma {:induction false} CustomizeShape(rules: seq<NavRule>, default: seq<Link>, base: string, i: nat)
    requires Customize(rules, default, base).Ok? && i < |rules|
    decreases rules
    ensures Yields(rules[i], Customize(rules, default, base).value[i], default, base)
    ensures Customize(rules, default, base).value[i].path == FindMatchingLink(rules[i].path, default, base).value.path
    ensures Customize(rules, default, base).value[i].title == FindMatchingLink(rules[i].path, default, base).value.title
  {
    CustomizeHead(rules, default, base);
    if i > 0 {
      CustomizeShape(rules[1..], default, base, i - 1);
      assert rules[1..][i - 1] == rules[i];
      assert Customize(rules, default, base).value[i] == Customize(rules[1..], default, base).value[i - 1];
    }
  }

  /** The first rule yields the first link, the remaining rules the remaining links. */
  lemma CustomizeHead(rules: seq<NavRule>, default: seq<Link>, base: string)
    requires Customize(rules, default, base).Ok? && |rules| > 0
    ensures Yields(rules[0], Customize(rules, default, base).value[0], default, base)
    ensures Customize(rules[1..], default, base).Ok?
    ensures Customize(rules, default, base).value[1..] == Customize(rules[1..], default, base).value
  {
  }

  /** An `Explicit` rule's children are the customisation of its nested rules
      against the whole default tree, so they may come from any level. */
  lemma ExplicitChildren(rule: NavRule, link: Link, default: seq<Link>, base: string)
    requires rule.Dir? && rule.children.Some? && rule.children.value.Explicit?
    ensures ApplyRule(rule, link, default, base).Ok?
            <==> Customize(rule.children.value.rules, default, base).Ok?
    ensures ApplyRule(rule, link, default, base).Ok? ==>
            ApplyRule(rule, link, default, base).value.children
              == Customize(rule.children.value.rules, default, base).value
  {
  }

  /** Every output link is a link of the default tree, up to its children:
      links no rule names are absent. */
  lemma OutputFromDefault(rules: seq<NavRule>, default: seq<Link>, base: string, i: nat)
    requires Customize(rules, default, base).Ok? && i < |rules|
    ensures var out := Customize(rules, default, base).value[i];
            exists l :: l in Flatten(default) && out == l.(children := out.children)
  {
    CustomizeShape(rules, default, base, i);
    FindLinkCorrect(RuleTarget(rules[i].path), default, base);
    var found := FindMatchingLink(rules[i].path, default, base).value;
    var out := Customize(rules, default, base).value[i];
    assert out == found.(children := out.children);
  }

  /** `Navigation::build_for`: the default tree, customised when the
      configuration has navigation rules. */
  function BuildFor(dir: Directory, base: string, rules: Option<seq<NavRule>>): (r: Result<seq<Link>, NavError>)
    requires Indexed(dir)
    ensures rules.None? ==> r == Ok(DefaultLinks(dir, base))
    ensures rules.Some? && r.Ok? ==> |r.value| == |rules.value|
  {
    DefaultTreeShape(dir, base);
    match rules
    case None => Ok(DefaultLinks(dir, base))
    case Some(nav) => Customize(nav, DefaultLinks(dir, base), base)
  }
}
