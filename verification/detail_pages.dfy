/** The service and industry detail pages: a static table keyed by the slug
    of each entry's title, built once by assigning entries in list order, and
    a route parameter looked up in it. */
module DetailPages {
  import opened Wrappers
  import opened Text
  import opened Slug
  import Seqs

  /** A service detail entry, identified by its title. The summary, outcomes
      and capabilities beside it are static copy. */
  datatype Service = Service(title: string)

  /** An industry detail entry, identified by its name. */
  datatype Industry = Industry(name: string)

  /** The list has an entry with key `k`. */
  predicate HasKey<T>(list: seq<T>, key: T -> string, k: string) {
    exists i :: 0 <= i < |list| && key(list[i]) == k
  }

  /** `list.forEach((e) => (map[key(e)] = e))` on an empty object: the keys
      of the table are exactly the keys of the list's entries. */
  function BuildTable<T>(list: seq<T>, key: T -> string): (m: map<string, T>)
    ensures forall k :: k in m <==> HasKey(list, key, k)
  {
    if list == [] then map[]
    else
      var n := |list| - 1;
      var m0 := BuildTable(list[..n], key);
      HasKeyStep(list, key);
      m0[key(list[n]) := list[n]]
  }

  lemma HasKeyStep<T>(list: seq<T>, key: T -> string)
    requires list != []
    ensures forall k :: HasKey(list, key, k)
                    <==> HasKey(list[..|list| - 1], key, k) || k == key(list[|list| - 1])
  {
    var n := |list| - 1;
    forall k | HasKey(list, key, k)
      ensures HasKey(list[..n], key, k) || k == key(list[n])
    {
      var i :| 0 <= i < |list| && key(list[i]) == k;
      if i < n {
        assert list[..n][i] == list[i];
      }
    }
    forall k | HasKey(list[..n], key, k)
      ensures HasKey(list, key, k)
    {
      var i :| 0 <= i < n && key(list[..n][i]) == k;
      assert list[..n][i] == list[i];
    }
  }

  /** Each key holds the LAST entry of the list with that key: the entries
      are assigned in list order, so a later one overwrites an earlier
      one. */
  lemma {:induction false} BuildTableLastWins<T>(list: seq<T>, key: T -> string, i: int)
    requires 0 <= i < |list|
    requires forall j :: i < j < |list| ==> key(list[j]) != key(list[i])
    ensures BuildTable(list, key)[key(list[i])] == list[i]
  {
    var n := |list| - 1;
    if i < n {
      assert list[..n][i] == list[i];
      assert forall j :: i < j < n ==> list[..n][j] == list[j];
      BuildTableLastWins(list[..n], key, i);
    }
  }

  /** Keys that are pairwise distinct. */
  predicate KeysDistinct<T>(list: seq<T>, key: T -> string) {
    forall i, j :: 0 <= i < j < |list| ==> key(list[i]) != key(list[j])
  }

  /** With distinct keys nothing is overwritten: every entry is found under
      its own key and the table has one key per entry. */
  lemma BuildTableDistinct<T>(list: seq<T>, key: T -> string)
    requires KeysDistinct(list, key)
    ensures forall i :: 0 <= i < |list| ==> BuildTable(list, key)[key(list[i])] == list[i]
    ensures |BuildTable(list, key)| == |list|
  {
    forall i | 0 <= i < |list| ensures BuildTable(list, key)[key(list[i])] == list[i] {
      BuildTableLastWins(list, key, i);
    }
    BuildTableSize(list, key);
  }

  lemma {:induction false} BuildTableSize<T>(list: seq<T>, key: T -> string)
    requires KeysDistinct(list, key)
    ensures |BuildTable(list, key)| == |list|
  {
    if list != [] {
      var n := |list| - 1;
      var prefix := list[..n];
      assert forall i :: 0 <= i < n ==> prefix[i] == list[i];
      assert KeysDistinct(prefix, key);
      BuildTableSize(prefix, key);
      assert !HasKey(prefix, key, key(list[n]));
      var m0 := BuildTable(prefix, key);
      assert BuildTable(list, key) == m0[key(list[n]) := list[n]];
    }
  }

  /** The eight service titles, in list order. */
  const ServiceTitles: seq<string> := [
    "Technology Consulting", "Business Process Optimization",
    "Custom Software Development", "System Integration", "Cloud Solutions",
    "Data Analytics", "Cybersecurity", "Digital Transformation"]

  /** The eight industry names, in list order; the third carries a
      non-breaking hyphen (U+2011). */
  const IndustryNames: seq<string> := [
    "Financial Services", "Healthcare", "Retail & E\U{2011}commerce",
    "Manufacturing", "Logistics", "Education", "Startups", "Enterprise"]

  function Services(): (r: seq<Service>)
    ensures |r| == |ServiceTitles|
    ensures forall i :: 0 <= i < |r| ==> r[i] == Service(ServiceTitles[i])
  {
    seq(|ServiceTitles|, i requires 0 <= i < |ServiceTitles| => Service(ServiceTitles[i]))
  }

  function Industries(): (r: seq<Industry>)
    ensures |r| == |IndustryNames|
    ensures forall i :: 0 <= i < |r| ==> r[i] == Industry(IndustryNames[i])
  {
    seq(|IndustryNames|, i requires 0 <= i < |IndustryNames| => Industry(IndustryNames[i]))
  }

  function ServiceKey(s: Service): string {
    ToSlug(s.title)
  }

  function IndustryKey(d: Industry): string {
    ToSlug(d.name)
  }

  /** `servicesDetails`. */
  function ServicesTable(): map<string, Service> {
    BuildTable(Services(), ServiceKey)
  }

  /** `industriesDetails`. */
  function IndustriesTable(): map<string, Industry> {
    BuildTable(Industries(), IndustryKey)
  }

  /** The list's entries start with two ASCII letters or digits. */
  predicate LettersFirst(titles: seq<string>) {
    forall i :: 0 <= i < |titles| ==>
      |titles[i]| >= 2 && IsSlugChar(LowerChar(titles[i][0])) && IsSlugChar(LowerChar(titles[i][1]))
  }

  /** The lower-cased first two characters of `s`. */
  function Head(s: string): (char, char)
    requires |s| >= 2
  {
    (LowerChar(s[0]), LowerChar(s[1]))
  }

  /** A slug starts with the head of its text. */
  lemma SlugStartsWithHead(t: string)
    requires |t| >= 2 && IsSlugChar(LowerChar(t[0])) && IsSlugChar(LowerChar(t[1]))
    ensures |ToSlug(t)| >= 2 && ToSlug(t)[0] == Head(t).0 && ToSlug(t)[1] == Head(t).1
  {
    SlugHead(t);
    assert ToSlug(t)[0] == ToSlug(t)[..2][0];
    assert ToSlug(t)[1] == ToSlug(t)[..2][1];
  }

  /** Titles whose heads differ pairwise have pairwise different slugs. */
  lemma DistinctHeads(titles: seq<string>)
    requires LettersFirst(titles)
    requires forall i, j :: 0 <= i < j < |titles| ==> Head(titles[i]) != Head(titles[j])
    ensures forall i, j :: 0 <= i < j < |titles| ==> ToSlug(titles[i]) != ToSlug(titles[j])
  {
    forall i | 0 <= i < |titles|
      ensures |ToSlug(titles[i])| >= 2 && ToSlug(titles[i])[0] == Head(titles[i]).0 && ToSlug(titles[i])[1] == Head(titles[i]).1
    {
      SlugStartsWithHead(titles[i]);
    }
  }

  /** A slug that starts differently from every title's head is no key. */
  lemma NotAmongSlugs(titles: seq<string>, k: string)
    requires LettersFirst(titles)
    requires |k| >= 2
    requires forall i :: 0 <= i < |titles| ==> Head(titles[i]) != (k[0], k[1])
    ensures forall i :: 0 <= i < |titles| ==> ToSlug(titles[i]) != k
  {
    forall i | 0 <= i < |titles| ensures ToSlug(titles[i]) != k {
      SlugStartsWithHead(titles[i]);
    }
  }

  /** `list` is keyed by the slugs of `names`, and `heads` lists the
      names' heads: slug characters, pairwise different. */
  predicate Keyed<T>(list: seq<T>, key: T -> string, names: seq<string>, heads: seq<(char, char)>) {
    && |list| == |names| == |heads|
    && (forall i :: 0 <= i < |list| ==> key(list[i]) == ToSlug(names[i]))
    && (forall i :: 0 <= i < |names| ==> |names[i]| >= 2 && Head(names[i]) == heads[i])
    && (forall i :: 0 <= i < |heads| ==> IsSlugChar(heads[i].0) && IsSlugChar(heads[i].1))
    && Seqs.Distinct(heads)
  }

  /** Entries keyed by names with pairwise different heads have pairwise
      different keys. */
  lemma KeyedDistinct<T>(list: seq<T>, key: T -> string, names: seq<string>, heads: seq<(char, char)>)
    requires Keyed(list, key, names, heads)
    ensures KeysDistinct(list, key)
  {
    DistinctHeads(names);
  }

  /** A table built from keyed entries holds one key per entry, the slug of
      each name leading to its entry. */
  lemma NamedTableComplete<T>(list: seq<T>, key: T -> string, names: seq<string>, heads: seq<(char, char)>)
    requires Keyed(list, key, names, heads)
    ensures |BuildTable(list, key)| == |names|
    ensures forall i :: 0 <= i < |names| ==>
      ToSlug(names[i]) != [] && BuildTable(list, key)[ToSlug(names[i])] == list[i]
  {
    KeyedDistinct(list, key, names, heads);
    BuildTableDistinct(list, key);
    forall i | 0 <= i < |names| ensures ToSlug(names[i]) != [] {
      SlugStartsWithHead(names[i]);
    }
  }

  /** A slug whose first two characters are no name's head is not a key of
      the table built from keyed entries. */
  lemma NotAKey<T>(list: seq<T>, key: T -> string, names: seq<string>, heads: seq<(char, char)>, k: string)
    requires Keyed(list, key, names, heads)
    requires |k| >= 2 && (k[0], k[1]) !in heads
    ensures k !in BuildTable(list, key)
  {
    NotAmongSlugs(names, k);
    assert !HasKey(list, key, k);
  }

  /** The lower-cased first two letters of each service title. */
  const ServiceHeads: seq<(char, char)> :=
    [('t', 'e'), ('b', 'u'), ('c', 'u'), ('s', 'y'), ('c', 'l'), ('d', 'a'), ('c', 'y'), ('d', 'i')]

  /** The lower-cased first two letters of each industry name. */
  const IndustryHeads: seq<(char, char)> :=
    [('f', 'i'), ('h', 'e'), ('r', 'e'), ('m', 'a'), ('l', 'o'), ('e', 'd'), ('s', 't'), ('e', 'n')]

  lemma ServiceHeadsWellFormed()
    ensures forall i :: 0 <= i < |ServiceHeads| ==> IsSlugChar(ServiceHeads[i].0) && IsSlugChar(ServiceHeads[i].1)
    ensures Seqs.Distinct(ServiceHeads)
  {
  }

  lemma IndustryHeadsWellFormed()
    ensures forall i :: 0 <= i < |IndustryHeads| ==> IsSlugChar(IndustryHeads[i].0) && IsSlugChar(IndustryHeads[i].1)
    ensures Seqs.Distinct(IndustryHeads)
  {
  }

  lemma ServiceHeadsAre()
    ensures forall i :: 0 <= i < |ServiceTitles| ==> |ServiceTitles[i]| >= 2 && Head(ServiceTitles[i]) == ServiceHeads[i]
  {
  }

  lemma IndustryHeadsAre()
    ensures forall i :: 0 <= i < |IndustryNames| ==> |IndustryNames[i]| >= 2 && Head(IndustryNames[i]) == IndustryHeads[i]
  {
  }

  /** Each service is keyed by the slug of its title. */
  lemma ServiceKeysMatch()
    ensures forall i :: 0 <= i < |Services()| ==> ServiceKey(Services()[i]) == ToSlug(ServiceTitles[i])
  {
  }

  /** Each industry is keyed by the slug of its name. */
  lemma IndustryKeysMatch()
    ensures forall i :: 0 <= i < |Industries()| ==> IndustryKey(Industries()[i]) == ToSlug(IndustryNames[i])
  {
  }

  lemma ServicesKeyed()
    ensures Keyed(Services(), ServiceKey, ServiceTitles, ServiceHeads)
  {
    ServiceHeadsAre();
    ServiceKeysMatch();
    ServiceHeadsWellFormed();
  }

  lemma IndustriesKeyed()
    ensures Keyed(Industries(), IndustryKey, IndustryNames, IndustryHeads)
  {
    IndustryHeadsAre();
    IndustryKeysMatch();
    IndustryHeadsWellFormed();
  }

  /** The eight service titles give eight different keys. */
  lemma ServiceKeysDistinct()
    ensures KeysDistinct(Services(), ServiceKey)
  {
    ServicesKeyed();
    KeyedDistinct(Services(), ServiceKey, ServiceTitles, ServiceHeads);
  }

  /** The eight industry names give eight different keys. */
  lemma IndustryKeysDistinct()
    ensures KeysDistinct(Industries(), IndustryKey)
  {
    IndustriesKeyed();
    KeyedDistinct(Industries(), IndustryKey, IndustryNames, IndustryHeads);
  }

  /** `servicesDetails` has one key per service, and the key of each
      service's title holds that service. */
  lemma ServicesTableComplete()
    ensures |ServicesTable()| == |ServiceTitles|
    ensures forall i :: 0 <= i < |ServiceTitles| ==>
      ToSlug(ServiceTitles[i]) != [] && ServicesTable()[ToSlug(ServiceTitles[i])] == Service(ServiceTitles[i])
  {
    ServicesKeyed();
    NamedTableComplete(Services(), ServiceKey, ServiceTitles, ServiceHeads);
  }

  /** `industriesDetails` has one key per industry, and the key of each
      name holds that industry. */
  lemma IndustriesTableComplete()
    ensures |IndustriesTable()| == |IndustryNames|
    ensures forall i :: 0 <= i < |IndustryNames| ==>
      ToSlug(IndustryNames[i]) != [] && IndustriesTable()[ToSlug(IndustryNames[i])] == Industry(IndustryNames[i])
  {
    IndustriesKeyed();
    NamedTableComplete(Industries(), IndustryKey, IndustryNames, IndustryHeads);
  }

  /** Properties every plain object inherits from `Object.prototype`
      (section 20.1.3 of ECMA-262 and its Annex B). Reading one of them on a
      table built from `{}` yields a function or an object: a truthy value
      that is not an entry. */
  const PrototypeMembers: set<string> := {
    "constructor", "hasOwnProperty", "isPrototypeOf", "propertyIsEnumerable",
    "toLocaleString", "toString", "valueOf", "__proto__",
    "__defineGetter__", "__defineSetter__", "__lookupGetter__", "__lookupSetter__"}

  /** What `table[key]` evaluates to in JavaScript. */
  datatype Value<T> = Entry(entry: T) | Inherited(member: string) | Undefined

  /** The detail page that is shown. `Broken` is a truthy non-entry: the page
      takes the detail branch and reads fields the value does not have. */
  datatype Page<T> = Detail(entry: T) | NotFound | Broken(member: string)

  /** `table[key]` as written: own keys first, then the prototype chain. */
  function IndexAsWritten<T>(table: map<string, T>, key: string): (v: Value<T>)
    ensures v.Entry? <==> key in table
    ensures v.Inherited? <==> key !in table && key in PrototypeMembers
    ensures v.Entry? ==> v.entry == table[key]
  {
    if key in table then Entry(table[key])
    else if key in PrototypeMembers then Inherited(key)
    else Undefined
  }

  /** `const data = slug ? table[slug] : undefined` followed by the
      `!data` branch, as written. A missing or empty slug is falsy. */
  function PageAsWritten<T>(table: map<string, T>, slug: Option<string>): (p: Page<T>)
    ensures slug == None || slug == Some("") ==> p == NotFound
    ensures p.Broken? <==> slug.Some? && slug.value !in table && slug.value in PrototypeMembers
  {
    if slug.None? || slug.value == "" then NotFound
    else match IndexAsWritten(table, slug.value)
      case Entry(e) => Detail(e)
      case Inherited(m) => Broken(m)
      case Undefined => NotFound
  }

  /** The intended lookup: own keys of the table only. */
  function Lookup<T>(table: map<string, T>, slug: Option<string>): (r: Option<T>)
    ensures r.Some? <==> slug.Some? && slug.value != "" && slug.value in table
    ensures r.Some? ==> r.value == table[slug.value]
  {
    if slug.Some? && slug.value != "" && slug.value in table then Some(table[slug.value]) else None
  }

  /** The detail page with the intended lookup: the entry under the slug, or
      "not found" for a missing, empty or unknown slug; never a broken
      page. */
  function ShowPage<T>(table: map<string, T>, slug: Option<string>): (p: Page<T>)
    ensures !p.Broken?
    ensures p == NotFound <==> Lookup(table, slug) == None
    ensures p.Detail? ==> Lookup(table, slug) == Some(p.entry)
  {
    match Lookup(table, slug)
    case Some(e) => Detail(e)
    case None => NotFound
  }

  /** The two lookups agree on every slug that does not name a prototype
      member, and differ on each such slug that is not a key. */
  lemma PageAgreement<T>(table: map<string, T>, slug: Option<string>)
    ensures slug.None? || slug.value !in PrototypeMembers
            ==> PageAsWritten(table, slug) == ShowPage(table, slug)
    ensures slug.Some? && slug.value !in table && slug.value in PrototypeMembers
            ==> PageAsWritten(table, slug) != ShowPage(table, slug)
  {
  }

  /** No service slug starts with `co`. */
  lemma ConstructorIsNoService(k: string)
    requires k == "constructor"
    ensures k !in ServicesTable()
  {
    assert k[0] == 'c' && k[1] == 'o';
    ServicesKeyed();
    NotAKey(Services(), ServiceKey, ServiceTitles, ServiceHeads, k);
  }

  /** No industry slug starts with `co`. */
  lemma ConstructorIsNoIndustry(k: string)
    requires k == "constructor"
    ensures k !in IndustriesTable()
  {
    assert k[0] == 'c' && k[1] == 'o';
    IndustriesKeyed();
    NotAKey(Industries(), IndustryKey, IndustryNames, IndustryHeads, k);
  }

  /** `/services/constructor`: the as-written lookup finds
      `Object.prototype.constructor`, so the page skips "Service not found"
      and renders a function as a service; the intended lookup reports the
      slug as not found. */
  lemma ConstructorSlugBreaksPage()
    ensures PageAsWritten(ServicesTable(), Some("constructor")) == Broken("constructor")
    ensures PageAsWritten(IndustriesTable(), Some("constructor")) == Broken("constructor")
    ensures ShowPage(ServicesTable(), Some("constructor")) == NotFound
    ensures ShowPage(IndustriesTable(), Some("constructor")) == NotFound
  {
    ConstructorIsNoService("constructor");
    ConstructorIsNoIndustry("constructor");
  }

  /** Following the slug of any service title opens that service's page. */
  lemma ServicePagesReachable(i: int)
    requires 0 <= i < |ServiceTitles|
    ensures ShowPage(ServicesTable(), Some(ToSlug(ServiceTitles[i]))) == Detail(Service(ServiceTitles[i]))
  {
    ServicesKeyed();
    NamedPageReachable(Services(), ServiceKey, ServiceTitles, ServiceHeads, i);
  }

  /** Following the slug of any industry name opens that industry's page. */
  lemma IndustryPagesReachable(i: int)
    requires 0 <= i < |IndustryNames|
    ensures ShowPage(IndustriesTable(), Some(ToSlug(IndustryNames[i]))) == Detail(Industry(IndustryNames[i]))
  {
    IndustriesKeyed();
    NamedPageReachable(Industries(), IndustryKey, IndustryNames, IndustryHeads, i);
  }

  /** In a table built from keyed entries, the slug of each name opens the
      page of its entry. */
  lemma NamedPageReachable<T>(list: seq<T>, key: T -> string, names: seq<string>, heads: seq<(char, char)>, i: int)
    requires Keyed(list, key, names, heads) && 0 <= i < |list|
    ensures ShowPage(BuildTable(list, key), Some(ToSlug(names[i]))) == Detail(list[i])
  {
    NamedTableComplete(list, key, names, heads);
    OpensEntry(BuildTable(list, key), ToSlug(names[i]), list[i]);
  }

  lemma OpensEntry<T>(table: map<string, T>, k: string, e: T)
    requires k != [] && k in table && table[k] == e
    ensures ShowPage(table, Some(k)) == Detail(e)
  {
  }

  /** Multi-word names collapse their spaces to single dashes. */
  lemma FinancialServicesSlug(v: string)
    requires v == "Financial Services"
    ensures ToSlug(v) == "financial-services"
  {
    SlugTwoCapitalised(v, 'F', "inancial", 'S', "ervices", "financial-services");
  }

  /** The ampersand is spelled out and the non-ASCII hyphen counts as a
      separator run of its own. */
  lemma RetailSlug(v: string)
    requires v == "Retail & E\U{2011}commerce"
    ensures ToSlug(v) == "retail-and-e-commerce"
  {
    SlugAmpersandCapitalised(v, 'R', "etail", 'E', "", "commerce", "retail-and-e-commerce");
  }
}
