/**
 * The static pet collection, the listing page's filter (category facet and
 * case-insensitive free-text search) and the lookup the adoption form uses
 * to name the chosen pet.
 */
module Pets {
  import opened Wrappers
  import opened Text

  /** A pet of the fixed list; `species` is the source's `type` field
      ("Dog" or "Cat"), `image` its display glyph. */
  datatype Pet = Pet(id: int, name: string, species: string, breed: string,
                     age: nat, image: string, description: string)

  const BUDDY := Pet(1, "Buddy", "Dog", "Golden Retriever", 3, "\U{1F415}", "Friendly and energetic")
  const WHISKERS := Pet(2, "Whiskers", "Cat", "Persian", 2, "\U{1F431}", "Calm and affectionate")
  const MAX := Pet(3, "Max", "Dog", "Labrador", 5, "\U{1F415}", "Great with kids")
  const LUNA := Pet(4, "Luna", "Cat", "Siamese", 1, "\U{1F431}", "Playful and curious")
  const CHARLIE := Pet(5, "Charlie", "Dog", "Beagle", 4, "\U{1F415}", "Loves to play fetch")
  const MITTENS := Pet(6, "Mittens", "Cat", "Tabby", 3, "\U{1F431}", "Independent and sweet")

  /** The six pets the root component holds for the whole session. */
  const PETS: seq<Pet> := [BUDDY, WHISKERS, MAX, LUNA, CHARLIE, MITTENS]

  // ---------------------------------------------------------------------------
  // The listing filter

  /** The category facet: "all", or the pet's lower-cased type. The facet
      value itself is compared as it is. */
  predicate MatchesFilter(p: Pet, filter: string) {
    filter == "all" || Lower(p.species) == filter
  }

  /** The lower-cased query occurs in the lower-cased name, breed or description. */
  predicate MatchesSearch(p: Pet, query: string) {
    var q := Lower(query);
    Contains(Lower(p.name), q) || Contains(Lower(p.breed), q) || Contains(Lower(p.description), q)
  }

  predicate Shown(p: Pet, filter: string, query: string) {
    MatchesFilter(p, filter) && MatchesSearch(p, query)
  }

  /** `r` can be obtained from `s` by deleting elements, keeping the order. */
  ghost predicate IsSubsequence<T>(r: seq<T>, s: seq<T>) {
    if r == [] then true
    else if s == [] then false
    else (r[0] == s[0] && IsSubsequence(r[1..], s[1..])) || IsSubsequence(r, s[1..])
  }

  /** `pets.filter(...)` on the listing page: the pets, in list order, that
      are both in the chosen category and found by the query, each kept as
      many times as it occurs. */
  function FilterPets(pets: seq<Pet>, filter: string, query: string): (r: seq<Pet>)
    ensures IsSubsequence(r, pets)
    ensures forall p :: multiset(r)[p] == if Shown(p, filter, query) then multiset(pets)[p] else 0
    ensures forall p :: p in r <==> p in pets && Shown(p, filter, query)
  {
    if pets == [] then []
    else
      var rest := FilterPets(pets[1..], filter, query);
      assert pets == [pets[0]] + pets[1..];
      if Shown(pets[0], filter, query) then
        assert ([pets[0]] + rest)[1..] == rest;
        [pets[0]] + rest
      else
        rest
  }

  /** With the facet on "all" and an empty search box every pet is listed. */
  lemma {:induction false} FilterAllEmptyIsIdentity(pets: seq<Pet>)
    ensures FilterPets(pets, "all", "") == pets
  {
    if pets != [] {
      ContainsEmpty(Lower(pets[0].name));
      FilterAllEmptyIsIdentity(pets[1..]);
      assert pets == [pets[0]] + pets[1..];
    }
  }

  /** The facet and the search are independent: searching first and then
      applying the facet with an empty query gives the same listing. */
  lemma {:induction false} FilterFacetAfterSearch(pets: seq<Pet>, filter: string, query: string)
    ensures FilterPets(pets, filter, query) == FilterPets(FilterPets(pets, "all", query), filter, "")
  {
    if pets != [] {
      ContainsEmpty(Lower(pets[0].name));
      FilterFacetAfterSearch(pets[1..], filter, query);
      var rest := FilterPets(pets[1..], "all", query);
      if MatchesSearch(pets[0], query) {
        assert FilterPets(pets, "all", query) == [pets[0]] + rest;
        assert ([pets[0]] + rest)[1..] == rest;
      }
    }
  }

  /** Searching the dogs for "fetch" lists exactly Charlie. */
  lemma DogsFetch()
    ensures FilterPets(PETS, "dog", "fetch") == [CHARLIE]
  {
    CatsAreNoDogs("fetch");
    BuddyIsNoFetcher();
    MaxIsNoFetcher();
    CharlieFetches();
    OnlyFifth(BUDDY, WHISKERS, MAX, LUNA, CHARLIE, MITTENS, "dog", "fetch");
  }

  lemma OnlyFifth(a: Pet, b: Pet, c: Pet, d: Pet, e: Pet, f: Pet, filter: string, query: string)
    requires Shown(e, filter, query)
    requires !Shown(a, filter, query) && !Shown(b, filter, query) && !Shown(c, filter, query)
    requires !Shown(d, filter, query) && !Shown(f, filter, query)
    ensures FilterPets([a, b, c, d, e, f], filter, query) == [e]
  {
    FilterSingle([a, b, c, d, e, f], filter, query, 4);
  }

  /** When exactly one position of the list passes the filter, the listing
      is that one pet. */
  lemma {:induction false} FilterSingle(pets: seq<Pet>, filter: string, query: string, k: nat)
    requires k < |pets| && Shown(pets[k], filter, query)
    requires forall j | 0 <= j < |pets| && j != k :: !Shown(pets[j], filter, query)
    ensures FilterPets(pets, filter, query) == [pets[k]]
  {
    if k == 0 {
      FilterNone(pets[1..], filter, query);
    } else {
      FilterSingle(pets[1..], filter, query, k - 1);
    }
  }

  /** When no pet passes the filter, the listing is empty. */
  lemma FilterNone(pets: seq<Pet>, filter: string, query: string)
    requires forall j | 0 <= j < |pets| :: !Shown(pets[j], filter, query)
    ensures FilterPets(pets, filter, query) == []
  {
  }

  lemma CatsAreNoDogs(q: string)
    ensures !Shown(WHISKERS, "dog", q) && !Shown(LUNA, "dog", q) && !Shown(MITTENS, "dog", q)
  {
    assert Lower("Cat")[0] == 'c';
  }

  lemma CharlieFetches()
    ensures Shown(CHARLIE, "dog", "fetch")
  {
    assert Lower("Dog") == "dog";
    assert Lower("fetch") == "fetch";
    assert Lower("Loves to play fetch")[14..19] == "fetch";
    assert OccursAt(Lower("Loves to play fetch"), "fetch", 14);
  }

  lemma BuddyIsNoFetcher()
    ensures !MatchesSearch(BUDDY, "fetch")
  {
    assert Lower("fetch") == "fetch";
    NoOccurrence(Lower("Buddy"), "fetch");
    NoOccurrence(Lower("Golden Retriever"), "fetch");
    FriendlyIsNoFetcher();
  }

  lemma FriendlyIsNoFetcher()
    ensures !Contains(Lower("Friendly and energetic"), "fetch")
  {
    var s := Lower("Friendly and energetic");
    assert s == "friendly and energetic";
    NoOccurrence(s, "fetch");
  }

  lemma MaxIsNoFetcher()
    ensures !MatchesSearch(MAX, "fetch")
  {
    assert Lower("fetch") == "fetch";
    NoOccurrence(Lower("Max"), "fetch");
    LabradorIsNoFetcher();
    KidsAreNoFetcher();
  }

  lemma LabradorIsNoFetcher()
    ensures !Contains(Lower("Labrador"), "fetch")
  {
    var s := Lower("Labrador");
    assert s == "labrador";
    NoOccurrence(s, "fetch");
  }

  lemma KidsAreNoFetcher()
    ensures !Contains(Lower("Great with kids"), "fetch")
  {
    var s := Lower("Great with kids");
    assert s == "great with kids";
    NoOccurrence(s, "fetch");
  }

  /** A needle whose first two characters never stand side by side in `hay`
      does not occur in it. */
  lemma NoOccurrence(hay: string, needle: string)
    requires |needle| >= 2
    requires forall i | 0 <= i < |hay| - 1 :: hay[i] != needle[0] || hay[i + 1] != needle[1]
    ensures !Contains(hay, needle)
  {
  }

  // ---------------------------------------------------------------------------
  // The adoption form's lookup

  /** `pets.find(p => p.id === id)`: the first pet carrying the id, or `None`. */
  function FindPet(pets: seq<Pet>, id: int): (r: Option<Pet>)
    ensures r.None? <==> forall k | 0 <= k < |pets| :: pets[k].id != id
    ensures r.Some? ==> exists k | 0 <= k < |pets| :: pets[k] == r.value && r.value.id == id
                                                     && forall j | 0 <= j < k :: pets[j].id != id
  {
    if pets == [] then None
    else if pets[0].id == id then Some(pets[0])
    else
      var r := FindPet(pets[1..], id);
      if r.Some? then
        var k :| 0 <= k < |pets| - 1 && pets[1..][k] == r.value && r.value.id == id
                 && forall j | 0 <= j < k :: pets[1..][j].id != id;
        assert pets[k + 1] == r.value;
        r
      else r
  }
}
