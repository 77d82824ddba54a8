/** The fixed code -> display-name table of the page and the reverse
    lookup `[code for code, name in language_dict.items() if name == n][0]`. */
module Languages {
  import opened Outcomes

  /** The exception the lookup raises: `[0]` on an empty list. */
  datatype LookupError = IndexError

  /** `language_dict`, as its (code, name) items in insertion order,
      which is the order `items()` yields them in. */
  const LanguageDict: seq<(string, string)> := [
    ("en", "English"),
    ("es", "Spanish"),
    ("fr", "French"),
    ("de", "German"),
    ("nl", "Dutch"),
    ("it", "Italian"),
    ("zh", "Chinese"),
    ("ja", "Japanese"),
    ("ar", "Arabic")
  ]

  /** `list(language_dict.values())`: the choices the page's drop-downs offer. */
  function Names(table: seq<(string, string)>): (r: seq<string>)
    ensures forall n :: n in r <==> exists c :: (c, n) in table
  {
    var r := seq(|table|, i requires 0 <= i < |table| => table[i].1);
    assert forall i :: 0 <= i < |table| ==> table[i] == (table[i].0, r[i]);
    r
  }

  /** No display name occurs twice in the table. */
  predicate DistinctNames(table: seq<(string, string)>) {
    forall i, j :: 0 <= i < j < |table| ==> table[i].1 != table[j].1
  }

  /** `[code for code, name in table if name == n]`: the codes whose
      display name is `n`, in table order. */
  function CodesNamed(table: seq<(string, string)>, n: string): (r: seq<string>)
    ensures |r| <= |table|
    ensures forall c :: c in r <==> (c, n) in table
  {
    if table == [] then []
    else if table[0].1 == n then [table[0].0] + CodesNamed(table[1..], n)
    else CodesNamed(table[1..], n)
  }

  /** `CodesNamed(table, n)[0]`, raising `IndexError` when nothing matches. */
  function LookupIn(table: seq<(string, string)>, n: string): Result<string, LookupError> {
    var codes := CodesNamed(table, n);
    if |codes| == 0 then Failure(IndexError) else Success(codes[0])
  }

  /** The lookup the page performs, over `language_dict`. */
  function LookupCode(n: string): Result<string, LookupError> {
    LookupIn(LanguageDict, n)
  }

  /** Whatever the lookup returns is a code whose entry carries that name. */
  lemma LookupSound(table: seq<(string, string)>, n: string)
    ensures LookupIn(table, n).Success? ==> (LookupIn(table, n).value, n) in table
  {
    if LookupIn(table, n).Success? {
      assert LookupIn(table, n).value in CodesNamed(table, n);
    }
  }

  /** The lookup returns the code of the FIRST entry carrying the name,
      which matters only for tables in which a name repeats. */
  lemma {:induction false} LookupFirstMatch(table: seq<(string, string)>, n: string)
    requires LookupIn(table, n).Success?
    ensures exists i :: (0 <= i < |table| && table[i] == (LookupIn(table, n).value, n)
      && forall j :: 0 <= j < i ==> table[j].1 != n)
  {
    if table[0].1 == n {
      assert table[0] == (LookupIn(table, n).value, n);
    } else {
      assert CodesNamed(table, n) == CodesNamed(table[1..], n);
      LookupFirstMatch(table[1..], n);
      var i :| 0 <= i < |table[1..]| && table[1..][i] == (LookupIn(table, n).value, n)
        && forall j :: 0 <= j < i ==> table[1..][j].1 != n;
      assert table[i + 1] == table[1..][i];
      forall j | 0 <= j < i + 1 ensures table[j].1 != n {
        if j > 0 {
          assert table[j] == table[1..][j - 1];
        }
      }
    }
  }

  /** The lookup fails exactly when the name is none of the table's names. */
  lemma LookupFailsIff(table: seq<(string, string)>, n: string)
    ensures LookupIn(table, n) == Failure(IndexError) <==> n !in Names(table)
  {
    var codes := CodesNamed(table, n);
    assert codes != [] ==> codes[0] in codes;
    if n in Names(table) {
      var i :| 0 <= i < |table| && Names(table)[i] == n;
      assert table[i] == (table[i].0, n);
      assert table[i].0 in codes;
    }
  }

  /** With distinct names, looking up the name of any entry yields that entry's code. */
  lemma {:induction false} LookupInverse(table: seq<(string, string)>, i: int)
    requires DistinctNames(table)
    requires 0 <= i < |table|
    ensures LookupIn(table, table[i].1) == Success(table[i].0)
  {
    if i > 0 {
      assert table[0].1 != table[i].1;
      assert DistinctNames(table[1..]) by {
        forall a, b | 0 <= a < b < |table[1..]| ensures table[1..][a].1 != table[1..][b].1 {
          assert table[1..][a] == table[a + 1] && table[1..][b] == table[b + 1];
        }
      }
      LookupInverse(table[1..], i - 1);
      assert table[1..][i - 1] == table[i];
    }
  }

  /** The names of `language_dict` are pairwise distinct. */
  lemma LanguageNamesDistinct()
    ensures DistinctNames(LanguageDict)
  {
  }

  /** The lookup is a bijection between the table's names and its codes:
      every name maps back to its own code, and a successful lookup of `n`
      gives a code listed under `n`. */
  lemma LanguageLookupRoundTrip(c: string, n: string)
    ensures LookupCode(n) == Success(c) <==> (c, n) in LanguageDict
  {
    LanguageNamesDistinct();
    LookupSound(LanguageDict, n);
    if (c, n) in LanguageDict {
      var i :| 0 <= i < |LanguageDict| && LanguageDict[i] == (c, n);
      LookupInverse(LanguageDict, i);
    }
  }

  /** "Spanish" resolves to "es"; a name that is not in the table, such as
      "Klingon", makes the lookup fail. */
  lemma LookupExamples()
    ensures LookupCode("Spanish") == Success("es")
    ensures LookupCode("Klingon") == Failure(IndexError)
  {
    LanguageLookupRoundTrip("es", "Spanish");
    LookupFailsIff(LanguageDict, "Klingon");
  }
}
