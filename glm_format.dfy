/**
 * The `fmt` formatter for glm float vectors (libcommon's glm.hpp): `parse` turns the
 * format specification into a per-element template held in a 20-byte buffer, and
 * `format` writes the elements, each through that template, between parentheses and
 * separated by ", ".
 */
module GlmFormat {

  /** The size of both template buffers. */
  const TemplateSize := 20

  /** The initial template: "{}" followed by NUL bytes. */
  const InitialTemplate: seq<char> := "{}" + seq(TemplateSize - 2, _ => '\0')

  /** The index of the first '}' of `s`. */
  function FirstBrace(s: seq<char>): (i: nat)
    requires '}' in s
    ensures i < |s| && s[i] == '}'
    ensures forall k | 0 <= k < i :: s[k] != '}'
  {
    if s[0] == '}' then 0 else 1 + FirstBrace(s[1..])
  }

  /**
   * What `parse` needs of the range it is given: when it is not empty it holds a '}'
   * (the scan does not stop at the end of the range), and the specification before
   * that '}' is short enough for the copy "{:" + spec + "}" to fit the buffer.
   */
  predicate ParseDefined(spec: seq<char>) {
    spec != [] ==> '}' in spec && FirstBrace(spec) <= TemplateSize - 3
  }

  /**
   * The buffer after `parse`: unchanged for an empty range and for a one-character
   * specification; otherwise ":" at index 1 and the specification with its closing
   * '}' from index 2 on.
   */
  function Parsed(t: seq<char>, spec: seq<char>): (r: seq<char>)
    requires |t| == TemplateSize && ParseDefined(spec)
    ensures |r| == TemplateSize
    ensures r[0] == t[0]
  {
    if spec == [] then t
    else
      var b := FirstBrace(spec);
      if b == 1 then t else t[..1] + [':'] + spec[..b] + ['}'] + t[b + 3..]
  }

  /** The text of a NUL-terminated buffer: everything before the first NUL. */
  function CString(s: seq<char>): (r: seq<char>)
    ensures |r| <= |s| && r == s[..|r|]
    ensures '\0' !in r
    ensures |r| < |s| ==> s[|r|] == '\0'
  {
    if s == [] || s[0] == '\0' then [] else [s[0]] + CString(s[1..])
  }

  /** The template text `parse` builds from the initial buffer. */
  function Template(spec: seq<char>): seq<char>
    requires ParseDefined(spec)
  {
    if spec == [] || FirstBrace(spec) == 1 then "{}" else "{:" + spec[..FirstBrace(spec)] + "}"
  }

  lemma {:induction false} CStringAppend(p: seq<char>, q: seq<char>)
    requires '\0' !in p
    ensures CString(p + q) == p + CString(q)
  {
    if p != [] {
      var pq := p + q;
      assert p[0] in p;
      assert pq[0] == p[0] && pq[1..] == p[1..] + q;
      assert CString(pq) == [p[0]] + CString(pq[1..]);
      assert '\0' !in p[1..] by {
        assert forall k | 0 <= k < |p[1..]| :: p[1..][k] == p[k + 1];
      }
      CStringAppend(p[1..], q);
      assert p == [p[0]] + p[1..];
    } else {
      assert p + q == q;
    }
  }

  /**
   * A specification short enough that the template keeps a terminating NUL: at most
   * TemplateSize - 4 characters before its '}'.
   */
  predicate Terminates(spec: seq<char>) {
    spec != [] ==> '}' in spec && FirstBrace(spec) <= TemplateSize - 4
  }

  /** Then the buffer `parse` leaves holds a NUL, so its text is delimited within it. */
  lemma ParsedTerminated(spec: seq<char>)
    requires Terminates(spec)
    ensures '\0' in Parsed(InitialTemplate, spec)
  {
    var r := Parsed(InitialTemplate, spec);
    assert r[TemplateSize - 1] == '\0';
  }

  /**
   * A specification of exactly TemplateSize - 3 characters is still copied in bounds,
   * but it fills all 20 bytes: no NUL is left, and a C string read of the buffer runs
   * past its end.
   */
  lemma FullSpecUnterminated(spec: seq<char>)
    requires '}' in spec && FirstBrace(spec) == TemplateSize - 3 && '\0' !in spec[..FirstBrace(spec)]
    ensures ParseDefined(spec)
    ensures '\0' !in Parsed(InitialTemplate, spec)
  {
    var b := FirstBrace(spec);
    assert Parsed(InitialTemplate, spec) == "{:" + spec[..b] + "}";
  }

  /**
   * From the initial buffer, `parse` leaves the template "{}" for an empty range or a
   * one-character specification, and "{:" + spec + "}" otherwise, provided the
   * specification has no NUL in it and leaves room for the terminating NUL.
   */
  lemma TemplateOfParse(spec: seq<char>)
    requires ParseDefined(spec) && Terminates(spec)
    requires spec != [] ==> '\0' !in spec[..FirstBrace(spec)]
    ensures CString(Parsed(InitialTemplate, spec)) == Template(spec)
  {
    if spec == [] || FirstBrace(spec) == 1 {
      CStringAppend("{}", seq(TemplateSize - 2, _ => '\0'));
    } else {
      SpecTemplate(spec, FirstBrace(spec));
    }
  }

  lemma SpecTemplate(spec: seq<char>, b: nat)
    requires b + 3 <= TemplateSize && b < |spec| && '\0' !in spec[..b]
    ensures var text := "{:" + spec[..b] + "}";
            CString(InitialTemplate[..1] + [':'] + spec[..b] + ['}'] + InitialTemplate[b + 3..]) == text
  {
    var nuls := seq(TemplateSize - 3 - b, _ => '\0');
    var text := "{:" + spec[..b] + "}";
    assert InitialTemplate[b + 3..] == nuls;
    assert InitialTemplate[..1] + [':'] + spec[..b] + ['}'] + nuls == text + nuls;
    assert '\0' !in text by {
      assert forall k | 2 <= k < |text| - 1 :: text[k] == spec[..b][k - 2];
    }
    CStringAppend(text, nuls);
  }

  /** Examples: the specification is kept, except a single character, which is dropped. */
  lemma TemplateExamples()
    ensures Template("") == "{}"
    ensures Template("f}") == "{}"
    ensures Template(".3f}") == "{:.3f}"
    ensures Template("}") == "{:}"
  {
    assert FirstBrace("f}") == 1;
    assert FirstBrace(".3f}") == 3;
  }

  /**
   * `parts` joined with `sep` between neighbours: part 0, then sep and part k for
   * every further k.
   */
  function Join(parts: seq<seq<char>>, sep: seq<char>): seq<char> {
    if |parts| <= 1 then (if parts == [] then [] else parts[0])
    else Join(parts[..|parts| - 1], sep) + sep + parts[|parts| - 1]
  }

  /** Joining one more part adds a separator before it, unless it is the first. */
  lemma JoinSnoc(parts: seq<seq<char>>, i: nat, sep: seq<char>)
    requires i < |parts|
    ensures Join(parts[..i + 1], sep) == if i == 0 then parts[0] else Join(parts[..i], sep) + sep + parts[i]
  {
    assert parts[..i + 1][..i] == parts[..i];
  }

  /** What the loop of `format` has written after n elements. */
  function Emitted(parts: seq<seq<char>>, n: nat): seq<char>
    requires n <= |parts|
  {
    if n == 0 then "(" else Emitted(parts, n - 1) + parts[n - 1] + (if n != |parts| then ", " else "")
  }

  /** After n >= 1 elements the loop has written "(", the first n joined, and ", " unless it is done. */
  lemma {:induction false} EmittedJoin(parts: seq<seq<char>>, n: nat)
    requires 0 < n <= |parts|
    ensures Emitted(parts, n) == "(" + Join(parts[..n], ", ") + (if n != |parts| then ", " else "")
  {
    var tail := if n != |parts| then ", " else "";
    JoinSnoc(parts, n - 1, ", ");
    if n > 1 {
      EmittedJoin(parts, n - 1);
      Regroup("(", Join(parts[..n - 1], ", "), ", ", parts[n - 1], tail);
    }
  }

  lemma Regroup(a: seq<char>, b: seq<char>, c: seq<char>, d: seq<char>, e: seq<char>)
    ensures (a + b + c) + d + e == a + (b + c + d) + e
  {
  }

  function TotalLength(parts: seq<seq<char>>): nat {
    if parts == [] then 0 else TotalLength(parts[..|parts| - 1]) + |parts[|parts| - 1]|
  }

  /** Joining L >= 1 parts inserts exactly L - 1 separators. */
  lemma {:induction false} JoinLength(parts: seq<seq<char>>, sep: seq<char>)
    requires parts != []
    ensures |Join(parts, sep)| == TotalLength(parts) + (|parts| - 1) * |sep|
  {
    if |parts| > 1 {
      var pre := parts[..|parts| - 1];
      JoinLength(pre, sep);
      assert pre[..|pre| - 1] == [] ==> |pre| == 1;
      if |pre| == 1 {
        assert TotalLength(pre) == |pre[0]|;
      }
    }
  }

  /** The elements of `v`, each written through `template` by `element`. */
  function Parts(v: seq<real>, template: seq<char>, element: (seq<char>, real) -> seq<char>): (ps: seq<seq<char>>)
    ensures |ps| == |v| && forall k | 0 <= k < |v| :: ps[k] == element(template, v[k])
  {
    seq(|v|, k requires 0 <= k < |v| => element(template, v[k]))
  }

  /** The text `format` writes: "(" + the elements joined by ", " + ")". */
  function Formatted(v: seq<real>, template: seq<char>, element: (seq<char>, real) -> seq<char>): seq<char> {
    "(" + Join(Parts(v, template, element), ", ") + ")"
  }

  /** A glm vector of L >= 1 floats is written with L - 1 separators and its parentheses. */
  lemma FormattedLength(v: seq<real>, template: seq<char>, element: (seq<char>, real) -> seq<char>)
    requires v != []
    ensures var ps := Parts(v, template, element);
            |Formatted(v, template, element)| == 2 + TotalLength(ps) + 2 * (|v| - 1)
  {
    JoinLength(Parts(v, template, element), ", ");
  }

  /** `fmt::formatter<glm::vec<L, float, Q>>`, holding the per-element template buffer. */
  class VecFormatter {
    var tpl: array<char>

    ghost predicate Valid()
      reads this
    {
      tpl.Length == TemplateSize
    }

    constructor ()
      ensures Valid() && fresh(tpl)
      ensures tpl[..] == InitialTemplate
    {
      tpl := new char[TemplateSize](k => if k == 0 then '{' else if k == 1 then '}' else '\0');
    }

    /**
     * `parse`: copies the specification up to the first '}' into a scratch buffer, and
     * unless the scratch buffer has '}' at index 1 writes ":" + spec + "}" into the
     * template from index 1 on; returns the position of that '}' (0 for an empty range).
     */
    method Parse(spec: seq<char>) returns (pos: nat)
      requires Valid() && ParseDefined(spec)
      modifies tpl
      ensures pos == if spec == [] then 0 else FirstBrace(spec)
      ensures spec != [] ==> pos < |spec| && spec[pos] == '}'
      ensures tpl[..] == Parsed(old(tpl[..]), spec)
    {
      var it := 0;
      var local := new char[TemplateSize](_ => '\0');
      if it != |spec| {
        it := ScanSpec(spec, local);
        if local[1] != '}' {
          tpl[1] := ':';
          CopySpec(local, it);
          assert tpl[..] == old(tpl[..1]) + [':'] + spec[..it] + ['}'] + old(tpl[it + 3..]);
        } else {
          assert it == 1;
        }
      }
      if it != |spec| && spec[it] != '}' {
        assert false;
      }
      pos := it;
    }

    /**
     * The scan of `parse`: the specification up to its first '}' copied into the
     * all-NUL scratch buffer, then '}' after it; returns the index of that '}'.
     */
    static method ScanSpec(spec: seq<char>, local: array<char>) returns (i: nat)
      requires spec != [] && ParseDefined(spec)
      requires local.Length == TemplateSize && forall k | 0 <= k < TemplateSize :: local[k] == '\0'
      modifies local
      ensures i == FirstBrace(spec)
      ensures local[..i + 1] == spec[..i] + ['}']
      ensures forall k | i < k < TemplateSize :: local[k] == '\0'
    {
      i := 0;
      while spec[i] != '}'
        invariant 0 <= i <= FirstBrace(spec)
        invariant forall k | 0 <= k < TemplateSize :: local[k] == if k < i then spec[k] else '\0'
        decreases FirstBrace(spec) - i
      {
        local[i] := spec[i];
        i := i + 1;
      }
      local[i] := '}';
      assert local[..i + 1] == spec[..i] + ['}'];
    }

    /** `std::copy` of scratch[0 .. n] into the template from index 2 on. */
    method CopySpec(local: array<char>, n: nat)
      requires Valid() && local != tpl && local.Length == TemplateSize && n + 3 <= TemplateSize
      modifies tpl
      ensures tpl[..] == old(tpl[..2]) + local[..n + 1] + old(tpl[n + 3..])
    {
      for k := 0 to n + 1
        invariant forall q | 0 <= q < TemplateSize ::
                    tpl[q] == if 2 <= q < k + 2 then local[q - 2] else old(tpl[q])
      {
        tpl[2 + k] := local[k];
      }
      assert tpl[..] == old(tpl[..2]) + local[..n + 1] + old(tpl[n + 3..]);
    }

    /**
     * `format`: "(", then each element written through the template, with ", " after
     * every element but the last, then ")".
     */
    method Format(v: seq<real>, element: (seq<char>, real) -> seq<char>) returns (out: seq<char>)
      requires '\0' in tpl[..]
      ensures out == Formatted(v, CString(tpl[..]), element)
    {
      var template := CString(tpl[..]);
      ghost var parts := Parts(v, template, element);
      out := "(";
      for i := 0 to |v|
        invariant out == Emitted(parts, i)
      {
        out := out + element(template, v[i]);
        if i + 1 != |v| {
          out := out + ", ";
        }
      }
      if v != [] {
        EmittedJoin(parts, |v|);
        assert parts[..|v|] == parts;
      }
      out := out + ")";
    }
  }
}
