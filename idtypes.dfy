/** Types shared by the list management of package `id`: trice IDs, trice formats
    and the two look-up maps built from them. */
module IdTypes {

  /** A trice ID. Zero is the sentinel for "no ID assigned". */
  type TriceID = int

  /** One byte of a file's contents. */
  newtype byte = b: int | 0 <= b < 256

  /** The format of one trice: the macro name as written and the format string. */
  datatype TriceFmt = TriceFmt(Type: string, Strg: string)

  /** The reverse index: normalised trice format to ID. */
  type TriceFmtLookUp = map<TriceFmt, TriceID>

  datatype Option<T> = None | Some(value: T)

  /** Upper-cases one ASCII letter and leaves every other character alone. */
  function UpperChar(c: char): char
  {
    if 'a' <= c <= 'z' then (c as int - 32) as char else c
  }

  /** The upper-case form of a macro name. */
  function ToUpper(s: string): (r: string)
    ensures |r| == |s|
    ensures forall i :: 0 <= i < |s| ==> r[i] == UpperChar(s[i])
  {
    seq(|s|, i requires 0 <= i < |s| => UpperChar(s[i]))
  }

  /** The case-insensitive key a trice format is deduplicated under: its type
      upper-cased, its format string as it is. */
  function Normalize(f: TriceFmt): (r: TriceFmt)
    ensures r.Strg == f.Strg && |r.Type| == |f.Type|
    ensures forall i :: 0 <= i < |r.Type| ==> !('a' <= r.Type[i] <= 'z')
    ensures ToUpper(r.Type) == r.Type
  {
    ToUpperIdempotent(f.Type);
    ToUpperHasNoLowerCase(f.Type);
    TriceFmt(ToUpper(f.Type), f.Strg)
  }

  /** Upper-casing an upper-cased name changes nothing. */
  lemma ToUpperIdempotent(s: string)
    ensures ToUpper(ToUpper(s)) == ToUpper(s)
  {
  }

  /** An upper-cased name holds no lower-case ASCII letter. */
  lemma ToUpperHasNoLowerCase(s: string)
    ensures forall i :: 0 <= i < |ToUpper(s)| ==> !('a' <= ToUpper(s)[i] <= 'z')
  {
  }

  /** Type names that differ only in case share one key; format strings that
      differ in case do not. A shared key does not make IDs of different ID
      ranges shared: those are looked up per range. */
  lemma NormalizeFixture()
    ensures Normalize(TriceFmt("trice0", "hi")) == Normalize(TriceFmt("TRICE0", "hi"))
    ensures Normalize(TriceFmt("Trice0", "hi")) == Normalize(TriceFmt("TRICE0", "hi"))
    ensures Normalize(TriceFmt("TRICE8_1", "Hi %d")) != Normalize(TriceFmt("trice8_1", "hi %d"))
  {
  }

  /** A non-empty set of IDs has an element to pick. */
  lemma NonEmptyHasID(s: set<TriceID>)
    requires s != {}
    ensures exists x :: x in s
  {
    if forall x :: x !in s {
      assert false;
    }
  }

  /** The IDs of the interval [lo, hi]. */
  function Interval(lo: int, hi: int): (s: set<int>)
    ensures forall k :: k in s <==> lo <= k <= hi
    ensures lo <= hi + 1 ==> |s| == hi - lo + 1
    decreases hi - lo
  {
    if hi < lo then {} else Interval(lo, hi - 1) + {hi}
  }

  /** True when `s` contains at least one of the characters of `chars`. */
  predicate ContainsAny(s: string, chars: string)
    ensures ContainsAny(s, chars) <==> exists c :: c in chars && c in s
  {
    exists i :: 0 <= i < |s| && s[i] in chars
  }
}
