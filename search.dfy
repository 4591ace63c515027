/** Catalog search (`searchPerfumes`, `getPerfumesByBrand` once the catalog is in
    hand) and the text block the catalog is rendered to (`formatPerfumeInfo`). */
module CatalogSearch {
  import opened Text
  import opened Catalog

  /** `text.toLowerCase().includes(query.toLowerCase())`. */
  predicate MatchesText(text: string, query: string) {
    Includes(LowerStr(text), LowerStr(query))
  }

  /** The search predicate: the query occurs, ignoring case, in the name or the brand. */
  predicate MatchesQuery(p: Perfume, query: string) {
    MatchesText(p.nome, query) || MatchesText(p.marca, query)
  }

  /** The brand predicate: the query occurs, ignoring case, in the brand. */
  predicate MatchesBrand(p: Perfume, brand: string) {
    MatchesText(p.marca, brand)
  }

  /** `searchPerfumes` applied to a catalog: the entries that match, in catalog order. */
  function Search(data: seq<Perfume>, query: string): (r: seq<Perfume>)
    ensures |r| <= |data|
    ensures forall p :: p in r <==> p in data && MatchesQuery(p, query)
  {
    if data == [] then []
    else (if MatchesQuery(data[0], query) then [data[0]] else []) + Search(data[1..], query)
  }

  /** `getPerfumesByBrand` applied to a catalog: the entries whose brand matches, in catalog order. */
  function ByBrand(data: seq<Perfume>, brand: string): (r: seq<Perfume>)
    ensures |r| <= |data|
    ensures forall p :: p in r <==> p in data && MatchesBrand(p, brand)
  {
    if data == [] then []
    else (if MatchesBrand(data[0], brand) then [data[0]] else []) + ByBrand(data[1..], brand)
  }

  /** Searching a catalog made of two parts searches each part, keeping their order. */
  lemma {:induction false} SearchAppend(a: seq<Perfume>, b: seq<Perfume>, query: string)
    ensures Search(a + b, query) == Search(a, query) + Search(b, query)
  {
    if a != [] {
      ConsAppend(a, b);
      SearchAppend(a[1..], b, query);
    } else {
      assert a + b == b;
    }
  }

  /** Every text contains the empty query. */
  lemma MatchesEmpty(text: string)
    ensures MatchesText(text, "")
  {
    IncludesIffOccurs(LowerStr(text), "");
    assert OccursAt(LowerStr(text), "", 0);
  }

  /** The empty query returns the whole catalog, in order. */
  lemma {:induction false} SearchEmptyQuery(data: seq<Perfume>)
    ensures Search(data, "") == data
  {
    if data != [] {
      MatchesEmpty(data[0].nome);
      SearchEmptyQuery(data[1..]);
      assert [data[0]] + data[1..] == data;
    }
  }

  /** The case of the query does not matter. */
  lemma {:induction false} SearchIgnoresQueryCase(data: seq<Perfume>, query: string)
    ensures Search(data, LowerStr(query)) == Search(data, query)
  {
    LowerStrIdempotent(query);
    if data != [] {
      SearchIgnoresQueryCase(data[1..], query);
    }
  }

  /** The brand lookup for a string is the brand filter of the search for the same
      string: it never finds an entry the search misses, and keeps the search's order. */
  lemma {:induction false} ByBrandWithinSearch(data: seq<Perfume>, brand: string)
    ensures ByBrand(Search(data, brand), brand) == ByBrand(data, brand)
  {
    if data != [] {
      ByBrandWithinSearch(data[1..], brand);
      var head := if MatchesQuery(data[0], brand) then [data[0]] else [];
      ByBrandAppend(head, Search(data[1..], brand), brand);
      if !MatchesQuery(data[0], brand) {
        assert head + Search(data[1..], brand) == Search(data[1..], brand);
      } else {
        assert ([data[0]] + Search(data[1..], brand))[1..] == Search(data[1..], brand);
      }
    }
  }

  /** Filtering by brand a catalog made of two parts filters each part, keeping their order. */
  lemma {:induction false} ByBrandAppend(a: seq<Perfume>, b: seq<Perfume>, brand: string)
    ensures ByBrand(a + b, brand) == ByBrand(a, brand) + ByBrand(b, brand)
  {
    if a != [] {
      ConsAppend(a, b);
      ByBrandAppend(a[1..], b, brand);
    } else {
      assert a + b == b;
    }
  }

  /** The head and tail of a concatenation whose first part is not empty. */
  lemma ConsAppend<T>(a: seq<T>, b: seq<T>)
    requires a != []
    ensures (a + b)[0] == a[0] && (a + b)[1..] == a[1..] + b
  {
  }

  /** What `formatPerfumeInfo` prints for an empty list. Written in pieces so that the
      verifier can read its characters. */
  const NoMatches := "Nenhum perfume " + "encontrado com os " + "critérios especificados."

  /** What separates two entries' blocks. */
  const BlockSeparator := "\n---\n\n"

  /** The block for one entry: bold name and brand, then price and availability. */
  function Block(p: Perfume): string {
    "**" + p.nome + "** (" + p.marca + ")\n" +
    "Preço: " + p.preco + "\n" +
    "Disponibilidade: " + p.disponibilidade + "\n"
  }

  /** The blocks of a list of entries, in order. */
  function Blocks(ps: seq<Perfume>): (r: seq<string>)
    ensures |r| == |ps|
    ensures forall i :: 0 <= i < |r| ==> r[i] == Block(ps[i])
  {
    if ps == [] then [] else [Block(ps[0])] + Blocks(ps[1..])
  }

  /** `formatPerfumeInfo`. */
  function FormatPerfumeInfo(ps: seq<Perfume>): string {
    if ps == [] then NoMatches else Join(Blocks(ps), BlockSeparator)
  }

  /** A block only shows the name, brand, price and availability. */
  lemma BlockShowsFourFields(p: Perfume, q: Perfume)
    requires p.nome == q.nome && p.marca == q.marca
    requires p.preco == q.preco && p.disponibilidade == q.disponibilidade
    ensures Block(p) == Block(q)
  {
  }

  /** One entry prints as its block alone. */
  lemma FormatSingle(p: Perfume)
    ensures FormatPerfumeInfo([p]) == Block(p)
  {
  }

  /** Two non-empty lists print as their two texts with one separator between:
      `n` entries give `n` blocks in order with `n - 1` separators. */
  lemma FormatAppend(a: seq<Perfume>, b: seq<Perfume>)
    requires a != [] && b != []
    ensures FormatPerfumeInfo(a + b) == FormatPerfumeInfo(a) + BlockSeparator + FormatPerfumeInfo(b)
  {
    assert Blocks(a + b) == Blocks(a) + Blocks(b);
    JoinAppend(Blocks(a), Blocks(b), BlockSeparator);
  }

  /** The "no matches" sentence is printed exactly for the empty list: any
      non-empty list prints starting with its first entry's bold name. */
  lemma FormatNoMatchesIff(ps: seq<Perfume>)
    ensures FormatPerfumeInfo(ps) == NoMatches <==> ps == []
    ensures ps != [] ==> FormatPerfumeInfo(ps)[..2 + |ps[0].nome|] == "**" + ps[0].nome
  {
    if ps != [] {
      var blocks := Blocks(ps);
      var text := FormatPerfumeInfo(ps);
      var rest := if |ps| == 1 then "" else BlockSeparator + Join(blocks[1..], BlockSeparator);
      assert text == Block(ps[0]) + rest;
      assert text[0] == '*';
      assert NoMatches[0] == 'N';
      assert Block(ps[0])[..2 + |ps[0].nome|] == "**" + ps[0].nome;
    }
  }
}
