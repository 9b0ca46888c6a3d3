/** A named external resource (ruby/lib/resource.rb): only its name takes part in equality. */
module Resources {
  import opened Wrappers

  /** The hash a resource was built from, and that hash's "name" entry (`nil` when absent). */
  datatype Resource = Resource(hash: map<string, string>, name: Option<string>)

  /** `Resource.new(hash)`: keeps the hash and reads its "name" entry. */
  function New(hash: map<string, string>): (r: Resource)
    ensures r.hash == hash
    ensures r.name.Some? <==> "name" in hash
    ensures "name" in hash ==> r.name.value == hash["name"]
  {
    Resource(hash, if "name" in hash then Some(hash["name"]) else None)
  }

  /** `Resource.from_name(n)`: a resource whose hash holds only the name. */
  function FromName(n: string): (r: Resource)
    ensures r.name == Some(n)
    ensures r.hash == map["name" := n]
  {
    New(map["name" := n])
  }

  /** `==`: two resources are equal when their names are. */
  predicate Equal(a: Resource, b: Resource) {
    b.name == a.name
  }

  /** Equality looks only at the "name" entries; every other entry of the hashes is ignored. */
  lemma EqualIgnoresOtherEntries(h1: map<string, string>, h2: map<string, string>)
    ensures Equal(New(h1), New(h2)) <==>
              ("name" in h1 <==> "name" in h2) && ("name" in h1 ==> h1["name"] == h2["name"])
  {
  }

  /** Resources built from names are equal exactly when the names are. */
  lemma FromNameEqual(n: string, m: string)
    ensures Equal(FromName(n), FromName(m)) <==> n == m
  {
  }

  /** Name equality makes `==` an equivalence relation. */
  lemma EqualIsEquivalence(a: Resource, b: Resource, c: Resource)
    ensures Equal(a, a)
    ensures Equal(a, b) ==> Equal(b, a)
    ensures Equal(a, b) && Equal(b, c) ==> Equal(a, c)
  {
  }
}
