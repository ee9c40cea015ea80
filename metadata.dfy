/**
 * The application's identifiers, derived at build time from the package
 * name (build/metadata.rs): the reverse-domain id, the resource path and
 * the human title.
 */
module Metadata {
  import opened Text

  /** The fixed reverse-domain prefix of the application id. */
  const IdPrefix: string := "pt.tiago_marques."

  /** `create_id`: the prefix, then the package name with every '-' turned into '_'. */
  function CreateId(name: string): (id: string)
    ensures |id| == |IdPrefix| + |name|
    ensures id[..|IdPrefix|] == IdPrefix
    ensures '-' !in id
  {
    IdPrefix + Replace(name, '-', '_')
  }

  /** `create_resource_path`: "/" and the id with every '.' turned into '/'. */
  function CreateResourcePath(id: string): (path: string)
    ensures |path| == |id| + 1 && path[0] == '/'
    ensures '.' !in path
  {
    "/" + Replace(id, '.', '/')
  }

  /** The id's dots become the path's slashes: "pt.tiago_marques.x" lives under "/pt/tiago_marques/". */
  lemma ResourcePathOfId(name: string)
    ensures CreateResourcePath(CreateId(name)) == "/pt/tiago_marques/" + Replace(Replace(name, '-', '_'), '.', '/')
  {
    var body := Replace(name, '-', '_');
    ReplaceConcat(IdPrefix, body, '.', '/');
    PrefixAsPath();
    assert "/" + ("pt/tiago_marques/" + Replace(body, '.', '/')) == "/pt/tiago_marques/" + Replace(body, '.', '/');
  }

  lemma PrefixAsPath()
    ensures Replace(IdPrefix, '.', '/') == "pt/tiago_marques/"
  {
    var r := Replace(IdPrefix, '.', '/');
    assert r[2] == '/' && r[16] == '/';
  }

  // ---------------------------------------------------------------------
  // Title
  // ---------------------------------------------------------------------

  /** A word with its first character upper-cased and the rest kept. */
  function Capitalized(word: string): (r: string)
    requires word != []
    ensures |r| == |word| && r[1..] == word[1..]
    ensures 'a' <= word[0] <= 'z' ==> r[0] as int == word[0] as int - 32
  {
    [AsciiUpper(word[0])] + word[1..]
  }

  /** The non-empty pieces, in order: `filter_map` drops a piece whose `chars().next()` is none. */
  function NonEmpty(parts: seq<string>): (r: seq<string>)
    ensures |r| <= |parts|
    ensures forall k :: 0 <= k < |r| ==> r[k] != [] && r[k] in parts
  {
    if parts == [] then []
    else (if parts[0] == [] then [] else [parts[0]]) + NonEmpty(parts[1..])
  }

  /** The '-'-separated segments of the package name that hold something. */
  function Segments(name: string): (r: seq<string>)
    ensures forall k :: 0 <= k < |r| ==> r[k] != [] && '-' !in r[k]
  {
    NonEmpty(Split(name, '-'))
  }

  /** The words of the title: each segment capitalised. */
  function Words(name: string): (r: seq<string>)
    ensures |r| == |Segments(name)|
  {
    var segments := Segments(name);
    seq(|segments|, k requires 0 <= k < |segments| => Capitalized(segments[k]))
  }

  /** `create_title`: the capitalised segments joined by single spaces. */
  function CreateTitle(name: string): string {
    Join(Words(name), ' ')
  }

  /** The title keeps no '-' of the package name. */
  lemma CreateTitleHasNoDash(name: string)
    ensures '-' !in CreateTitle(name)
  {
    var words := Words(name);
    forall k | 0 <= k < |words| ensures '-' !in words[k] {
      var segment := Segments(name)[k];
      assert segment[0] in segment;
      assert words[k] == [AsciiUpper(segment[0])] + segment[1..];
      forall i | 0 <= i < |words[k]| ensures words[k][i] != '-' {
        if i > 0 {
          assert words[k][i] == segment[i];
        }
      }
    }
    JoinAvoids(words, ' ', '-');
  }

  /**
   * For a package name without spaces and with at least one segment,
   * splitting the title on spaces gives back exactly the capitalised
   * segments: one word per non-empty segment.
   */
  lemma CreateTitleWords(name: string)
    requires ' ' !in name && Segments(name) != []
    ensures Split(CreateTitle(name), ' ') == Words(name)
    ensures |Split(CreateTitle(name), ' ')| == |Segments(name)|
  {
    var words := Words(name);
    forall k | 0 <= k < |words| ensures ' ' !in words[k] {
      var segment := Segments(name)[k];
      SegmentsOf(name, segment);
      assert words[k] == [AsciiUpper(segment[0])] + segment[1..];
      forall i | 0 <= i < |words[k]| ensures words[k][i] != ' ' {
        if i > 0 {
          assert words[k][i] == segment[i];
        } else {
          assert segment[0] in segment;
        }
      }
    }
    SplitJoin(words, ' ');
  }

  /** Every segment is made of characters of the name. */
  lemma SegmentsOf(name: string, segment: string)
    requires segment in Segments(name)
    ensures forall c :: c in segment ==> c in name
  {
    SplitPieces(name, '-');
  }

  /** The pieces of a split are made of characters of the split text. */
  lemma {:induction false} SplitPieces(s: string, sep: char)
    ensures forall k, c :: 0 <= k < |Split(s, sep)| && c in Split(s, sep)[k] ==> c in s
  {
    if s != [] {
      SplitPieces(s[1..], sep);
      var rest := Split(s[1..], sep);
      var parts := Split(s, sep);
      forall k, c | 0 <= k < |parts| && c in parts[k] ensures c in s {
        var j :| 0 <= j < |parts[k]| && parts[k][j] == c;
        if s[0] == sep {
          assert k > 0 && parts[k] == rest[k - 1];
          assert c in s[1..];
        } else if k == 0 {
          assert parts[0] == [s[0]] + rest[0];
          if j > 0 {
            assert c == rest[0][j - 1];
            assert c in s[1..];
          }
        } else {
          assert parts[k] == rest[k];
          assert c in s[1..];
        }
      }
    }
  }

  /** A character in none of the pieces, and not the separator, is not in the joined text. */
  lemma {:induction false} JoinAvoids(parts: seq<string>, sep: char, c: char)
    requires c != sep
    requires forall k :: 0 <= k < |parts| ==> c !in parts[k]
    ensures c !in Join(parts, sep)
  {
    if |parts| > 1 {
      JoinAvoids(parts[1..], sep, c);
    }
  }
}
