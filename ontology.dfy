/** ontology/ontology.go: the YAGO ontology as three maps of lists, read
    from the lines of YAGO tsv files (the reading of the files and the JSON
    dumps are left out): the types of each entity, the parents of each class,
    and the "flattened" taxonomy; and the ancestors of each entity. Every
    file starts with a comment line that is skipped, and every other line
    holds an id, a subject, a relation and an object, separated by spaces.
    (`contains` is the same loop as embserver/util.go's and is modelled once,
    as `EmbUtil.Contains`.) */
module Ontology {
  import opened Wrappers
  import opened GoStrings
  import opened Unionability
  import LshForest
  import EmbUtil

  /** a map from a name to a list of names, as `map[string][]string` */
  type Lists = map<string, seq<string>>

  /** a child (or entity) with one of its parents (or types) */
  type Link = (string, string)

  // ---------------------------------------------------------------
  // one line
  // ---------------------------------------------------------------

  predicate IsAngle(c: char) { c == '<' || c == '>' }

  /** the two `strings.Replace` calls that delete every '<' and '>' */
  function Strip(s: string): string
  {
    Keep(s, IsAngle)
  }

  /** a name as the maps hold it: no space, no upper-case letter, no angle
      bracket */
  predicate IsName(w: string)
  {
    forall i :: 0 <= i < |w| ==> !IsSpace(w[i]) && !IsUpperLetter(w[i]) && !IsAngle(w[i])
  }

  /** The second and fourth fields of the lower-cased line, stripped of
      angle brackets; a line with fewer than four fields panics (`parts[1]`
      or `parts[3]` out of range). */
  function LineLink(line: string): (r: Outcome<Link>)
    ensures r.Panic? <==> |Fields(ToLower(line))| < 4
    ensures r.Value? ==> IsName(r.value.0) && IsName(r.value.1)
  {
    var parts := Fields(ToLower(line));
    if |parts| < 4 then Panic("index out of range")
    else
      StrippedField(line, parts[1]);
      StrippedField(line, parts[3]);
      Value((Strip(parts[1]), Strip(parts[3])))
  }

  lemma StrippedField(line: string, w: string)
    requires w in Fields(ToLower(line))
    ensures IsName(Strip(w))
  {
    FieldsChars(ToLower(line));
    KeepChars(w, IsAngle);
    forall i | 0 <= i < |Strip(w)| ensures !IsSpace(Strip(w)[i]) && !IsUpperLetter(Strip(w)[i]) && !IsAngle(Strip(w)[i]) {
      var c := Strip(w)[i];
      assert c in Strip(w);
      assert c in w && c in ToLower(line);
    }
  }

  /** a line of a YAGO tsv file: an id, a subject, a relation and an
      object, separated by tabs */
  function TsvLine(id: string, child: string, rel: string, parent: string): string
  {
    id + "\t" + child + "\t" + rel + "\t" + parent + "\n"
  }

  /** A line of lower-case words links the child, stripped, to the parent,
      stripped. */
  lemma LineOfWords(id: string, child: string, rel: string, parent: string)
    requires IsWord(id) && IsWord(child) && IsWord(rel) && IsWord(parent)
    requires forall c :: c in id + child + rel + parent ==> !IsUpperLetter(c)
    ensures LineLink(TsvLine(id, child, rel, parent)) == Value((Strip(child), Strip(parent)))
  {
    var line := TsvLine(id, child, rel, parent);
    LowerLine(line, id + child + rel + parent);
    FieldsOfLine(id, child, rel, parent);
  }

  lemma LowerLine(line: string, words: string)
    requires forall c :: c in words ==> !IsUpperLetter(c)
    requires forall c :: c in line ==> c in words || c == '\t' || c == '\n'
    ensures ToLower(line) == line
  {
    forall i | 0 <= i < |line| ensures ToLower(line)[i] == line[i] {
      assert line[i] in line;
    }
  }

  lemma TsvLineShape(id: string, child: string, rel: string, parent: string)
    ensures TsvLine(id, child, rel, parent) == id + ['\t'] + (child + ['\t'] + (rel + ['\t'] + (parent + ['\n'] + "")))
  {
  }

  lemma FieldsOfLine(id: string, child: string, rel: string, parent: string)
    requires IsWord(id) && IsWord(child) && IsWord(rel) && IsWord(parent)
    ensures Fields(TsvLine(id, child, rel, parent)) == [id, child, rel, parent]
  {
    TsvLineShape(id, child, rel, parent);
    var s3 := parent + ['\n'] + "";
    var s2 := rel + ['\t'] + s3;
    var s1 := child + ['\t'] + s2;
    FieldsCons(parent, '\n', "");
    FieldsCons(rel, '\t', s3);
    FieldsCons(child, '\t', s2);
    FieldsCons(id, '\t', s1);
  }

  /** every line has four fields */
  predicate Parses(lines: seq<string>)
  {
    forall k :: 0 <= k < |lines| ==> LineLink(lines[k]).Value?
  }

  /** the links of the lines, in order */
  function LinksOf(lines: seq<string>): (r: seq<Link>)
    requires Parses(lines)
    ensures |r| == |lines| && forall k :: 0 <= k < |lines| ==> r[k] == LineLink(lines[k]).value
  {
    if lines == [] then []
    else LinksOf(lines[..|lines| - 1]) + [LineLink(lines[|lines| - 1]).value]
  }

  lemma LinksOfSnoc(lines: seq<string>, i: nat)
    requires i < |lines| && Parses(lines[..i + 1])
    ensures Parses(lines[..i])
    ensures LinksOf(lines[..i + 1]) == LinksOf(lines[..i]) + [LineLink(lines[i]).value]
  {
    assert lines[..i + 1][..i] == lines[..i];
  }

  /** the children the links name */
  function Children(links: seq<Link>): set<string>
  {
    set l | l in links :: l.0
  }

  /** the parents of e in the links, in order, repeats kept */
  function ParentsOf(links: seq<Link>, e: string): (r: seq<string>)
    ensures forall t :: t in r <==> (e, t) in links
  {
    if links == [] then []
    else
      var init := links[..|links| - 1];
      assert links == init + [links[|links| - 1]];
      ParentsOf(init, e) + (if links[|links| - 1].0 == e then [links[|links| - 1].1] else [])
  }

  /** The parents of the concatenated links are the parents in each part in
      turn: a link given twice yields its parent twice. */
  lemma {:induction false} ParentsOfConcat(a: seq<Link>, b: seq<Link>, e: string)
    ensures ParentsOf(a + b, e) == ParentsOf(a, e) + ParentsOf(b, e)
    decreases |b|
  {
    if b == [] {
      assert a + b == a;
    } else {
      var init := b[..|b| - 1];
      assert (a + b)[..|a + b| - 1] == a + init;
      ParentsOfConcat(a, init, e);
    }
  }

  lemma ParentsOfOne(c: string, t: string, e: string)
    ensures ParentsOf([(c, t)], e) == if c == e then [t] else []
  {
    assert [(c, t)][..0] == [];
  }

  // ---------------------------------------------------------------
  // readEntityType
  // ---------------------------------------------------------------

  lemma {:induction false} ParentsOfAbsent(links: seq<Link>, e: string)
    requires e !in Children(links)
    ensures ParentsOf(links, e) == []
  {
    if links != [] {
      var init := links[..|links| - 1];
      assert links == init + [links[|links| - 1]];
      assert Children(init) <= Children(links);
      ParentsOfAbsent(init, e);
    }
  }

  /** the map `readEntityType` builds: each entity to its types in the order
      of the lines, repeats kept */
  function EntityTypesOf(links: seq<Link>): Lists
  {
    map e | e in Children(links) :: ParentsOf(links, e)
  }

  /** The entities of the map are those of the links, and the types of each
      are exactly the types the links give it. */
  lemma EntityTypesMembers(links: seq<Link>)
    ensures forall e :: e in EntityTypesOf(links) <==> exists t :: (e, t) in links
    ensures forall e, t :: e in EntityTypesOf(links) ==> (t in EntityTypesOf(links)[e] <==> (e, t) in links)
  {
    forall e | e in Children(links) ensures exists t :: (e, t) in links {
      var l :| l in links && l.0 == e;
      assert (e, l.1) in links;
    }
  }

  lemma ChildrenSnoc(links: seq<Link>, l: Link)
    ensures Children(links + [l]) == Children(links) + {l.0}
  {
    var n := links + [l];
    forall x | x in Children(n) ensures x in Children(links) + {l.0} {
      var y :| y in n && y.0 == x;
      if y != l {
        assert y in links;
      }
    }
    forall x | x in Children(links) ensures x in Children(n) {
      var y :| y in links && y.0 == x;
      assert y in n;
    }
    assert l in n;
  }

  lemma ParentsOfSnoc(links: seq<Link>, l: Link, x: string)
    ensures ParentsOf(links + [l], x) == ParentsOf(links, x) + (if l.0 == x then [l.1] else [])
  {
    assert (links + [l])[..|links|] == links;
  }

  lemma EntityTypesSnoc(links: seq<Link>, e: string, t: string)
    ensures EntityTypesOf(links + [(e, t)]) ==
      var m := EntityTypesOf(links);
      m[e := if e in m then m[e] + [t] else [t]]
  {
    var m := EntityTypesOf(links);
    var m' := m[e := if e in m then m[e] + [t] else [t]];
    var n := links + [(e, t)];
    ChildrenSnoc(links, (e, t));
    if e !in m {
      ParentsOfAbsent(links, e);
    }
    forall x | x in Children(n) ensures ParentsOf(n, x) == m'[x] {
      ParentsOfSnoc(links, (e, t), x);
    }
    assert EntityTypesOf(n).Keys == m'.Keys;
    assert EntityTypesOf(n) == m';
  }

  /** one more line read into the entity types */
  lemma EntityTypesStep(body: seq<string>, i: nat, e: string, t: string)
    requires i < |body| && Parses(body[..i]) && LineLink(body[i]) == Value((e, t))
    ensures Parses(body[..i + 1])
    ensures var m := EntityTypesOf(LinksOf(body[..i]));
      EntityTypesOf(LinksOf(body[..i + 1])) == m[e := if e in m then m[e] + [t] else [t]]
  {
    assert body[..i + 1] == body[..i] + [body[i]];
    assert Parses(body[..i + 1]);
    LinksOfSnoc(body, i);
    EntityTypesSnoc(LinksOf(body[..i]), e, t);
  }

  /** `readEntityType`: a panic without any line or with a line of fewer than
      four fields; otherwise each entity of the lines after the first to all
      its types, in order */
  method ReadEntityType(lines: seq<string>) returns (r: Outcome<Lists>)
    ensures r.Panic? <==> lines == [] || !Parses(lines[1..])
    ensures r.Value? ==> lines != [] && Parses(lines[1..]) && r.value == EntityTypesOf(LinksOf(lines[1..]))
  {
    if lines == [] {
      return Panic("slice bounds out of range");
    }
    var body := lines[1..];
    var entities: Lists := map[];
    for i := 0 to |body|
      invariant Parses(body[..i])
      invariant entities == EntityTypesOf(LinksOf(body[..i]))
    {
      var link := LineLink(body[i]);
      if link.Panic? {
        return Panic(link.reason);
      }
      var (e, t) := link.value;
      EntityTypesStep(body, i, e, t);
      if e !in entities {
        entities := entities[e := [t]];
      } else {
        entities := entities[e := entities[e] + [t]];
      }
    }
    assert body[..|body|] == body;
    return Value(entities);
  }

  // ---------------------------------------------------------------
  // readTaxonomy
  // ---------------------------------------------------------------

  /** the map `readTaxonomy` builds: each class to its parents in the order
      they first appear, each once */
  function TaxonomyOf(links: seq<Link>): Lists
  {
    map c | c in Children(links) :: LshForest.Dedup(ParentsOf(links, c))
  }

  /** The classes of the taxonomy are the children of the links; each list
      has no repeats and holds exactly the parents the links give the
      class. */
  lemma TaxonomyMembers(links: seq<Link>)
    ensures forall c :: c in TaxonomyOf(links) <==> exists p :: (c, p) in links
    ensures forall c :: c in TaxonomyOf(links) ==> NoDuplicates(TaxonomyOf(links)[c])
    ensures forall c, p :: c in TaxonomyOf(links) ==> (p in TaxonomyOf(links)[c] <==> (c, p) in links)
  {
    forall c | c in Children(links) ensures exists p :: (c, p) in links {
      var l :| l in links && l.0 == c;
      assert (c, l.1) in links;
    }
  }

  /** the map with the link's parent appended to its child's list, unless
      it is there already */
  function AddedLink(m: Lists, l: Link): (r: Lists)
    ensures r.Keys == m.Keys + {l.0}
  {
    if l.0 !in m then m[l.0 := [l.1]]
    else if l.1 in m[l.0] then m
    else m[l.0 := m[l.0] + [l.1]]
  }

  lemma TaxonomySnoc(links: seq<Link>, l: Link)
    ensures TaxonomyOf(links + [l]) == AddedLink(TaxonomyOf(links), l)
  {
    var m' := AddedLink(TaxonomyOf(links), l);
    var n := links + [l];
    ChildrenSnoc(links, l);
    assert TaxonomyOf(n).Keys == Children(n) == m'.Keys;
    forall x | x in m' ensures TaxonomyOf(n)[x] == m'[x] {
      TaxonomyAt(links, l, x);
    }
    SameLists(TaxonomyOf(n), m');
  }

  lemma TaxonomyLookup(links: seq<Link>, c: string)
    requires c in Children(links)
    ensures c in TaxonomyOf(links) && TaxonomyOf(links)[c] == LshForest.Dedup(ParentsOf(links, c))
  {
  }

  /** two maps of the same keys and the same lists are equal */
  lemma SameLists(a: Lists, b: Lists)
    requires a.Keys == b.Keys && forall x :: x in b ==> a[x] == b[x]
    ensures a == b
  {
  }

  lemma TaxonomyAt(links: seq<Link>, l: Link, x: string)
    requires x in Children(links + [l])
    ensures x in AddedLink(TaxonomyOf(links), l)
    ensures TaxonomyOf(links + [l])[x] == AddedLink(TaxonomyOf(links), l)[x]
  {
    ChildrenSnoc(links, l);
    if x == l.0 {
      TaxonomyAtChild(links, l);
    } else {
      TaxonomyAtOther(links, l, x);
      AddedLinkOther(TaxonomyOf(links), l, x);
    }
  }

  lemma TaxonomyAtChild(links: seq<Link>, l: Link)
    ensures TaxonomyOf(links + [l])[l.0] == AddedLink(TaxonomyOf(links), l)[l.0]
  {
    ChildrenSnoc(links, l);
    ParentsOfSnoc(links, l, l.0);
    TaxonomyLookup(links + [l], l.0);
    TaxonomyOfChild(links, l.0, l.1);
  }

  lemma TaxonomyAtOther(links: seq<Link>, l: Link, x: string)
    requires x in Children(links + [l]) && x != l.0
    ensures x in TaxonomyOf(links) && TaxonomyOf(links + [l])[x] == TaxonomyOf(links)[x]
  {
    ChildrenSnoc(links, l);
    ParentsOfSnoc(links, l, x);
    var ps := ParentsOf(links, x);
    assert ps + [] == ps;
    assert ParentsOf(links + [l], x) == ps;
    TaxonomyLookup(links + [l], x);
    TaxonomyLookup(links, x);
  }

  lemma AddedLinkOther(m: Lists, l: Link, x: string)
    requires x in m && x != l.0
    ensures x in AddedLink(m, l) && AddedLink(m, l)[x] == m[x]
  {
  }

  lemma TaxonomyOfChild(links: seq<Link>, c: string, p: string)
    ensures LshForest.Dedup(ParentsOf(links, c) + [p]) ==
      var m := TaxonomyOf(links);
      if c !in m then [p] else if p in m[c] then m[c] else m[c] + [p]
  {
    var ps := ParentsOf(links, c);
    LshForest.DedupSnoc(ps, p);
    if c !in Children(links) {
      ParentsOfAbsent(links, c);
      assert [] + [p] == [p];
      assert [p][..0] == [];
    }
  }

  /** whether the link's parent is already listed for its child */
  predicate Listed(m: Lists, l: Link)
  {
    l.0 in m && l.1 in m[l.0]
  }

  /** one line of `readTaxonomy` and of a pass of `flattenTaxonomy`: the
      parent is appended to the child's list unless it is there already;
      `changed` says whether the map changed */
  method AddLink(m: Lists, l: Link) returns (m': Lists, changed: bool)
    ensures changed <==> !Listed(m, l)
    ensures m' == AddedLink(m, l)
  {
    var (c, p) := l;
    if c !in m {
      return m[c := [p]], true;
    }
    var found := EmbUtil.Contains(m[c], p);
    if !found {
      return m[c := m[c] + [p]], true;
    }
    return m, false;
  }

  /** `readTaxonomy`: a panic without any line or with a line of fewer than
      four fields; otherwise each class of the lines after the first to its
      parents, each once */
  method ReadTaxonomy(lines: seq<string>) returns (r: Outcome<Lists>)
    ensures r.Panic? <==> lines == [] || !Parses(lines[1..])
    ensures r.Value? ==> lines != [] && Parses(lines[1..]) && r.value == TaxonomyOf(LinksOf(lines[1..]))
  {
    if lines == [] {
      return Panic("slice bounds out of range");
    }
    var body := lines[1..];
    var taxonomy: Lists := map[];
    for i := 0 to |body|
      invariant Parses(body[..i])
      invariant taxonomy == TaxonomyOf(LinksOf(body[..i]))
    {
      var link := LineLink(body[i]);
      if link.Panic? {
        return Panic(link.reason);
      }
      TaxonomyStep(body, i, link.value);
      var changed;
      taxonomy, changed := AddLink(taxonomy, link.value);
    }
    assert body[..|body|] == body;
    return Value(taxonomy);
  }

  /** one more line read into the taxonomy */
  lemma TaxonomyStep(body: seq<string>, i: nat, l: Link)
    requires i < |body| && Parses(body[..i]) && LineLink(body[i]) == Value(l)
    ensures Parses(body[..i + 1])
    ensures TaxonomyOf(LinksOf(body[..i + 1])) == AddedLink(TaxonomyOf(LinksOf(body[..i])), l)
  {
    assert body[..i + 1] == body[..i] + [body[i]];
    assert Parses(body[..i + 1]);
    LinksOfSnoc(body, i);
    TaxonomySnoc(LinksOf(body[..i]), l);
  }

  /** The link of every line is listed in the taxonomy of all the lines. */
  lemma ListedStep(body: seq<string>, i: nat, l: Link)
    requires i < |body| && Parses(body) && LineLink(body[i]) == Value(l)
    ensures Parses(body[..i + 1])
    ensures Listed(TaxonomyOf(LinksOf(body)), l)
  {
    ParsesPrefix(body, i + 1);
    var links := LinksOf(body);
    assert links[i] == l;
    LinkListed(links, l);
  }

  lemma ParsesPrefix(lines: seq<string>, n: nat)
    requires n <= |lines| && Parses(lines)
    ensures Parses(lines[..n])
  {
    forall k | 0 <= k < n ensures LineLink(lines[..n][k]).Value? {
      assert lines[..n][k] == lines[k];
    }
  }

  lemma LinkListed(links: seq<Link>, l: Link)
    requires l in links
    ensures Listed(TaxonomyOf(links), l)
  {
    assert l.0 in Children(links);
    assert TaxonomyOf(links)[l.0] == LshForest.Dedup(ParentsOf(links, l.0));
  }

  // ---------------------------------------------------------------
  // flattenTaxonomy
  // ---------------------------------------------------------------

  /** One pass of `flattenTaxonomy` over the lines. From the empty map it
      builds the taxonomy of the lines, and changes it iff there is a line;
      from that taxonomy it changes nothing. */
  method FlattenPass(body: seq<string>, start: Lists) returns (r: Outcome<Lists>, change: bool)
    requires start == map[] || (Parses(body) && start == TaxonomyOf(LinksOf(body)))
    ensures r.Panic? <==> !Parses(body)
    ensures r.Value? && start == map[] ==> r.value == TaxonomyOf(LinksOf(body)) && change == (body != [])
    ensures r.Value? && start != map[] ==> r.value == start && !change
  {
    var taxonomy := start;
    change := false;
    for i := 0 to |body|
      invariant Parses(body[..i])
      invariant start == map[] ==> taxonomy == TaxonomyOf(LinksOf(body[..i])) && change == (i > 0)
      invariant start != map[] ==> taxonomy == start && !change
    {
      var link := LineLink(body[i]);
      if link.Panic? {
        return Panic(link.reason), change;
      }
      if start == map[] {
        TaxonomyStep(body, i, link.value);
      } else {
        ListedStep(body, i, link.value);
      }
      var changed;
      taxonomy, changed := AddLink(taxonomy, link.value);
      change := change || changed;
    }
    assert body[..|body|] == body;
    return Value(taxonomy), change;
  }

  /** `flattenTaxonomy`: passes over the lines until one changes nothing.
      The second pass never changes anything, so the result is exactly the
      map `readTaxonomy` builds, each class to its direct parents. */
  method FlattenTaxonomy(lines: seq<string>) returns (r: Outcome<Lists>)
    ensures r.Panic? <==> lines == [] || !Parses(lines[1..])
    ensures r.Value? ==> lines != [] && Parses(lines[1..]) && r.value == TaxonomyOf(LinksOf(lines[1..]))
  {
    if lines == [] {
      return Panic("slice bounds out of range");
    }
    var body := lines[1..];
    var taxonomy: Lists := map[];
    var change := true;
    ghost var passes := 0;
    while change
      invariant passes <= 2
      invariant passes == 0 ==> taxonomy == map[] && change
      invariant passes > 0 ==> Parses(body) && taxonomy == TaxonomyOf(LinksOf(body))
      invariant passes == 1 && change ==> taxonomy != map[]
      invariant passes == 2 ==> !change
      decreases 2 - passes
    {
      var next;
      next, change := FlattenPass(body, taxonomy);
      if next.Panic? {
        return Panic(next.reason);
      }
      if passes == 0 && change {
        assert LinksOf(body)[0] in LinksOf(body);
        assert LinksOf(body)[0].0 in next.value;
      }
      taxonomy := next.value;
      passes := passes + 1;
    }
    return Value(taxonomy);
  }

  /** With a link from a to b and one from b to c, the flattened taxonomy
      lists only b for a, though its comment promises all the ancestor
      classes, c among them. */
  lemma FlattenMissesGrandparent()
    ensures TaxonomyOf([("a", "b"), ("b", "c")])["a"] == ["b"]
  {
    var links := [("a", "b"), ("b", "c")];
    assert ParentsOf(links, "a") == ["b"] by {
      assert links[..1] == [("a", "b")];
      assert links[..1][..0] == [];
    }
    assert LshForest.Dedup(["b"]) == ["b"] by {
      assert ["b"][..0] == [];
    }
  }

  // ---------------------------------------------------------------
  // entityToAncestors
  // ---------------------------------------------------------------

  /** the parents the taxonomy gives a class; none for a class it lacks (a
      nil slice in Go) */
  function Parents(taxonomy: Lists, t: string): seq<string>
  {
    if t in taxonomy then taxonomy[t] else []
  }

  /** each of ps that is not yet in a appended to it, in order */
  function AddMissing(a: seq<string>, ps: seq<string>): (r: seq<string>)
    ensures NoDuplicates(a) ==> NoDuplicates(r)
    ensures forall x :: x in r <==> x in a || x in ps
    ensures a <= r
    decreases |ps|
  {
    if ps == [] then a
    else
      var init := ps[..|ps| - 1];
      var x := ps[|ps| - 1];
      assert ps == init + [x];
      var b := AddMissing(a, init);
      if x in b then b else b + [x]
  }

  /** Nothing is appended when every element is there already. */
  lemma {:induction false} AddMissingPresent(a: seq<string>, ps: seq<string>)
    requires forall x :: x in ps ==> x in a
    ensures AddMissing(a, ps) == a
    decreases |ps|
  {
    if ps != [] {
      var init := ps[..|ps| - 1];
      assert ps == init + [ps[|ps| - 1]];
      AddMissingPresent(a, init);
    }
  }

  /** every element of r is one of the types or a parent of one */
  predicate FromTypes(r: seq<string>, types: seq<string>, taxonomy: Lists)
  {
    forall x :: x in r ==> x in types || exists t :: t in types && x in Parents(taxonomy, t)
  }

  lemma FromTypesGrow(r: seq<string>, pre: seq<string>, types: seq<string>, taxonomy: Lists)
    requires FromTypes(r, pre, taxonomy) && forall t :: t in pre ==> t in types
    ensures FromTypes(r, types, taxonomy)
  {
  }

  /** The ancestors `entityToAncestors` gives an entity of these types: each
      type, unless it is listed already, followed by those of its parents
      that are not listed yet. The list has no repeats, holds every type,
      and holds only types and parents of types. */
  function AncestorsOf(types: seq<string>, taxonomy: Lists): (r: seq<string>)
    ensures NoDuplicates(r)
    ensures forall t :: t in types ==> t in r
    ensures FromTypes(r, types, taxonomy)
    ensures r == [] <==> types == []
    decreases |types|
  {
    if types == [] then []
    else
      var init := types[..|types| - 1];
      var t := types[|types| - 1];
      assert types == init + [t];
      var a := AncestorsOf(init, taxonomy);
      FromTypesGrow(a, init, types, taxonomy);
      if t in a then a
      else
        assert NoDuplicates(a + [t]);
        AddMissing(a + [t], Parents(taxonomy, t))
  }

  /** When no type is a parent of a type, every parent of every type is
      listed. */
  lemma {:induction false} AncestorsComplete(types: seq<string>, taxonomy: Lists)
    requires forall t, u :: t in types && u in types ==> u !in Parents(taxonomy, t)
    ensures forall t, q :: t in types && q in Parents(taxonomy, t) ==> q in AncestorsOf(types, taxonomy)
    decreases |types|
  {
    if types != [] {
      var init := types[..|types| - 1];
      var t := types[|types| - 1];
      assert types == init + [t];
      assert forall x :: x in init ==> x in types;
      AncestorsComplete(init, taxonomy);
      var a := AncestorsOf(init, taxonomy);
      if t in a {
        assert t in types;
        assert t in init;
      }
    }
  }

  /** The types t1 and t2, where t2 is a parent of t1 and t3 a parent of
      t2, give only t1 and t2: t2 is listed as a parent before its turn as
      a type comes, so its own parent t3 is never added. */
  lemma AncestorsMissParent()
    ensures var taxonomy := map["t1" := ["t2"], "t2" := ["t3"]];
      "t2" in ["t1", "t2"] && "t3" in Parents(taxonomy, "t2") &&
      AncestorsOf(["t1", "t2"], taxonomy) == ["t1", "t2"]
  {
    var taxonomy := map["t1" := ["t2"], "t2" := ["t3"]];
    assert ["t1", "t2"][..1] == ["t1"];
    assert ["t1"][..0] == [];
    assert AncestorsOf(["t1"], taxonomy) == AddMissing(["t1"], ["t2"]) by {
      assert [] + ["t1"] == ["t1"];
    }
    assert AddMissing(["t1"], ["t2"]) == ["t1", "t2"] by {
      assert ["t2"][..0] == [];
    }
  }

  /** The ancestors as intended: every type and every parent of every type,
      each once, whether or not the type was listed before its turn. */
  function AncestorsIntended(types: seq<string>, taxonomy: Lists): (r: seq<string>)
    ensures NoDuplicates(r)
    ensures forall x :: x in r <==> x in types || exists t :: t in types && x in Parents(taxonomy, t)
    decreases |types|
  {
    if types == [] then []
    else
      var init := types[..|types| - 1];
      var t := types[|types| - 1];
      assert types == init + [t];
      var a := AncestorsIntended(init, taxonomy);
      var b := if t in a then a else a + [t];
      assert NoDuplicates(b);
      AddMissing(b, Parents(taxonomy, t))
  }

  /** the inner loop of `entityToAncestors`: each of ps that is not listed
      yet is appended */
  method AddParents(anc: seq<string>, ps: seq<string>) returns (r: seq<string>)
    ensures r == AddMissing(anc, ps)
  {
    r := anc;
    for i := 0 to |ps|
      invariant r == AddMissing(anc, ps[..i])
    {
      assert ps[..i + 1][..i] == ps[..i];
      var found := EmbUtil.Contains(r, ps[i]);
      if !found {
        r := r + [ps[i]];
      }
    }
    assert ps[..|ps|] == ps;
  }

  /** the loop of `entityToAncestors` over the types of one entity */
  method EntityAncestors(types: seq<string>, taxonomy: Lists) returns (anc: seq<string>)
    ensures anc == AncestorsOf(types, taxonomy)
  {
    anc := [];
    for i := 0 to |types|
      invariant anc == AncestorsOf(types[..i], taxonomy)
    {
      assert types[..i + 1][..i] == types[..i];
      var t := types[i];
      var found := EmbUtil.Contains(anc, t);
      if !found {
        anc := AddParents(anc + [t], Parents(taxonomy, t));
      }
    }
    assert types[..|types|] == types;
  }

  /** the map `entityToAncestors` builds; an entity without types gets no
      entry, as Go never assigns one */
  function AncestorMap(entityType: Lists, taxonomy: Lists): Lists
  {
    map e | e in entityType && entityType[e] != [] :: AncestorsOf(entityType[e], taxonomy)
  }

  /** `entityToAncestors`, without the JSON dump: the map is walked in an
      order in which nothing depends, each entity's list built from its own
      types */
  method EntityToAncestors(entityType: Lists, taxonomy: Lists) returns (r: Lists)
    ensures r == AncestorMap(entityType, taxonomy)
  {
    r := map[];
    var rest := entityType.Keys;
    ghost var done: set<string> := {};
    while rest != {}
      invariant rest <= entityType.Keys && done == entityType.Keys - rest
      invariant r == AncestorsDone(entityType, taxonomy, done)
      decreases |rest|
    {
      var e :| e in rest;
      var anc := EntityAncestors(entityType[e], taxonomy);
      AncestorsDoneStep(entityType, taxonomy, done, e);
      if anc != [] {
        r := r[e := anc];
      }
      rest := rest - {e};
      done := done + {e};
    }
    AncestorsAllDone(entityType, taxonomy, done);
  }

  /** the ancestor lists of the entities walked so far */
  function AncestorsDone(entityType: Lists, taxonomy: Lists, done: set<string>): Lists
  {
    map e | e in done && e in entityType && entityType[e] != [] :: AncestorsOf(entityType[e], taxonomy)
  }

  lemma AncestorsAllDone(entityType: Lists, taxonomy: Lists, done: set<string>)
    requires done == entityType.Keys
    ensures AncestorsDone(entityType, taxonomy, done) == AncestorMap(entityType, taxonomy)
  {
  }

  lemma AncestorsDoneStep(entityType: Lists, taxonomy: Lists, done: set<string>, e: string)
    requires e in entityType
    ensures AncestorsDone(entityType, taxonomy, done + {e}) ==
      if entityType[e] != [] then AncestorsDone(entityType, taxonomy, done)[e := AncestorsOf(entityType[e], taxonomy)]
      else AncestorsDone(entityType, taxonomy, done)
  {
  }

  // ---------------------------------------------------------------
  // the flattening its comment describes: every ancestor class
  // ---------------------------------------------------------------

  /** q is reached from c in at most n steps from a child to its parent */
  ghost predicate Within(links: seq<Link>, c: string, q: string, n: nat)
    decreases n
  {
    n > 0 &&
    exists k :: 0 <= k < |links| && links[k].0 == c && (links[k].1 == q || Within(links, links[k].1, q, n - 1))
  }

  /** q is an ancestor class of c: a parent, a parent's parent, and so on */
  ghost predicate IsAncestor(links: seq<Link>, c: string, q: string)
  {
    exists n: nat :: Within(links, c, q, n)
  }

  /** each class to exactly its ancestor classes, each once */
  ghost predicate AncestorLists(m: Lists, links: seq<Link>)
  {
    (forall c :: c in m <==> c in Children(links)) &&
    (forall c :: c in m ==> NoDuplicates(m[c])) &&
    forall c, q :: c in m && q in m[c] <==> IsAncestor(links, c, q)
  }

  /** the parents the links name */
  function Targets(links: seq<Link>): set<string>
  {
    set l | l in links :: l.1
  }

  /** every child with every parent: a bound on the pairs a map can list */
  function Pairs(links: seq<Link>): set<Link>
  {
    set c, q | c in Children(links) && q in Targets(links) :: (c, q)
  }

  /** the pairs (class, listed class) of a map */
  function Edges(m: Lists): set<Link>
  {
    set c, q | c in m && q in m[c] :: (c, q)
  }

  /** a map on the way to the closure: its classes are children, its lists
      have no repeats and list only ancestors */
  ghost predicate Good(m: Lists, links: seq<Link>)
  {
    (forall c :: c in m ==> c in Children(links) && NoDuplicates(m[c])) &&
    forall c, q :: c in m && q in m[c] ==> IsAncestor(links, c, q)
  }

  /** the child of the link lists its parent and everything its parent
      lists */
  predicate Closed(m: Lists, l: Link)
  {
    l.0 in m && l.1 in m[l.0] && forall q :: q in Parents(m, l.1) ==> q in m[l.0]
  }

  predicate AllClosed(m: Lists, links: seq<Link>)
  {
    forall k :: 0 <= k < |links| ==> Closed(m, links[k])
  }

  /** one line of a pass: the child's list gains the parent and what the
      parent lists, each unless listed already */
  function ClosureStep(m: Lists, l: Link): Lists
  {
    m[l.0 := AddMissing(Parents(m, l.0), [l.1] + Parents(m, l.1))]
  }

  lemma {:induction false} AncestorIsTarget(links: seq<Link>, c: string, q: string, n: nat)
    requires Within(links, c, q, n)
    ensures q in Targets(links)
    decreases n
  {
    var k :| 0 <= k < |links| && links[k].0 == c && (links[k].1 == q || Within(links, links[k].1, q, n - 1));
    if links[k].1 == q {
      assert links[k] in links;
    } else {
      AncestorIsTarget(links, links[k].1, q, n - 1);
    }
  }

  lemma EdgesBounded(m: Lists, links: seq<Link>)
    requires Good(m, links)
    ensures Edges(m) <= Pairs(links)
    ensures |Edges(m)| <= |Pairs(links)|
  {
    forall e | e in Edges(m) ensures e in Pairs(links) {
      var n: nat :| Within(links, e.0, e.1, n);
      AncestorIsTarget(links, e.0, e.1, n);
    }
    SubsetSize(Edges(m), Pairs(links));
  }

  /** A step from the link k keeps the map on the way to the closure. */
  lemma StepGood(m: Lists, links: seq<Link>, k: nat)
    requires Good(m, links) && k < |links|
    ensures Good(ClosureStep(m, links[k]), links)
  {
    var (c, p) := links[k];
    var m' := ClosureStep(m, links[k]);
    assert links[k] in links;
    assert Within(links, c, p, 1);
    forall q | q in m'[c] ensures IsAncestor(links, c, q) {
      if q in Parents(m, c) {
      } else if q != p {
        assert q in Parents(m, p);
        var n: nat :| Within(links, p, q, n);
        assert Within(links, c, q, n + 1);
      }
    }
  }

  /** A step never drops a pair, and adds one unless the link is closed
      already, in which case it changes nothing. */
  lemma StepGrows(m: Lists, l: Link)
    ensures Edges(m) <= Edges(ClosureStep(m, l))
    ensures Closed(m, l) ==> ClosureStep(m, l) == m
    ensures !Closed(m, l) ==> Edges(m) < Edges(ClosureStep(m, l))
  {
    var (c, p) := l;
    var m' := ClosureStep(m, l);
    forall e | e in Edges(m) ensures e in Edges(m') {
      if e.0 == c {
        assert e.1 in Parents(m, c);
      }
    }
    if Closed(m, l) {
      AddMissingPresent(m[c], [p] + Parents(m, p));
      assert m' == m[c := m[c]];
    } else if c !in m || p !in m[c] {
      assert (c, p) in Edges(m') - Edges(m);
    } else {
      var q :| q in Parents(m, p) && q !in m[c];
      assert (c, q) in Edges(m') - Edges(m);
    }
  }

  /** In a map where every link is closed, every class lists all its
      ancestors. */
  lemma {:induction false} ClosedWithin(m: Lists, links: seq<Link>, c: string, q: string, n: nat)
    requires AllClosed(m, links) && Within(links, c, q, n)
    ensures c in m && q in m[c]
    decreases n
  {
    var k :| 0 <= k < |links| && links[k].0 == c && (links[k].1 == q || Within(links, links[k].1, q, n - 1));
    assert Closed(m, links[k]);
    if links[k].1 != q {
      ClosedWithin(m, links, links[k].1, q, n - 1);
      assert q in Parents(m, links[k].1);
    }
  }

  lemma ClosedComplete(m: Lists, links: seq<Link>)
    requires Good(m, links) && AllClosed(m, links)
    ensures AncestorLists(m, links)
  {
    forall c | c in Children(links) ensures c in m {
      var l :| l in links && l.0 == c;
      var k :| 0 <= k < |links| && links[k] == l;
      assert Closed(m, links[k]);
    }
    forall c, q | IsAncestor(links, c, q) ensures c in m && q in m[c] {
      var n: nat :| Within(links, c, q, n);
      ClosedWithin(m, links, c, q, n);
    }
  }

  /** the links of the lines; a panic at a line of fewer than four fields */
  method ParseLinks(body: seq<string>) returns (r: Outcome<seq<Link>>)
    ensures r.Panic? <==> !Parses(body)
    ensures r.Value? ==> Parses(body) && r.value == LinksOf(body)
  {
    var links: seq<Link> := [];
    for i := 0 to |body|
      invariant Parses(body[..i]) && links == LinksOf(body[..i])
    {
      var link := LineLink(body[i]);
      if link.Panic? {
        return Panic(link.reason);
      }
      LinksOfSnoc(body, i);
      links := links + [link.value];
    }
    assert body[..|body|] == body;
    return Value(links);
  }

  /** one pass over the links, saying whether it changed the map */
  method ClosurePass(links: seq<Link>, start: Lists) returns (r: Lists, change: bool)
    requires Good(start, links)
    ensures Good(r, links) && Edges(start) <= Edges(r)
    ensures change ==> Edges(start) < Edges(r)
    ensures !change ==> r == start && AllClosed(start, links)
  {
    r := start;
    change := false;
    for i := 0 to |links|
      invariant Good(r, links) && Edges(start) <= Edges(r)
      invariant change ==> Edges(start) < Edges(r)
      invariant !change ==> r == start && forall k :: 0 <= k < i ==> Closed(start, links[k])
    {
      var (c, p) := links[i];
      var listed := Parents(r, c);
      var next := AddParents(listed, [p] + Parents(r, p));
      StepGood(r, links, i);
      StepGrows(r, links[i]);
      if c !in r || next != listed {
        r := r[c := next];
        change := true;
      } else {
        assert Closed(r, links[i]);
      }
    }
  }

  /** `flattenTaxonomy` as its comment describes it: passes that give each
      child its parent and everything its parent lists, until one changes
      nothing. Each class then lists exactly its ancestor classes, each
      once. */
  method FlattenClosure(lines: seq<string>) returns (r: Outcome<Lists>)
    ensures r.Panic? <==> lines == [] || !Parses(lines[1..])
    ensures r.Value? ==> lines != [] && Parses(lines[1..]) && AncestorLists(r.value, LinksOf(lines[1..]))
  {
    if lines == [] {
      return Panic("slice bounds out of range");
    }
    var parsed := ParseLinks(lines[1..]);
    if parsed.Panic? {
      return Panic(parsed.reason);
    }
    var links := parsed.value;
    var taxonomy: Lists := map[];
    var change := true;
    while change
      invariant Good(taxonomy, links)
      invariant !change ==> AllClosed(taxonomy, links)
      decreases |Pairs(links)| - |Edges(taxonomy)|, change
    {
      EdgesBounded(taxonomy, links);
      var next;
      next, change := ClosurePass(links, taxonomy);
      EdgesBounded(next, links);
      if change {
        ProperSubsetSize(Edges(taxonomy), Edges(next));
      }
      taxonomy := next;
    }
    ClosedComplete(taxonomy, links);
    return Value(taxonomy);
  }

  /** On the links from a to b and from b to c, the closure lists c for a,
      which the flattening as written misses. */
  lemma ClosureReachesGrandparent(m: Lists)
    requires AncestorLists(m, [("a", "b"), ("b", "c")])
    ensures "a" in m && "c" in m["a"]
  {
    var links := [("a", "b"), ("b", "c")];
    assert Within(links, "b", "c", 1) by {
      assert links[1].0 == "b";
    }
    assert Within(links, "a", "c", 2) by {
      assert links[0].0 == "a";
    }
  }
}
