/**
 What regexp.ReplaceAllString puts for `$1` to `$9` in a template, where the match is the whole text.
 */
module Templates {
  import opened Config

  /** A character that would go on a group's name. */
  predicate WordChar(c: char)
  {
    'a' <= c <= 'z' || 'A' <= c <= 'Z' || '0' <= c <= '9' || c == '_' || c as int >= 128
  }

  predicate IsGroup(template: string, i: nat)
  {
    && i + 1 < |template| && template[i] == '$' && '1' <= template[i + 1] <= '9'
    && (i + 2 < |template| ==> !WordChar(template[i + 2]))
  }

  /** Every dollar sign begins a group number of one digit. */
  predicate Simple(template: string)
  {
    forall i :: 0 <= i < |template| && template[i] == '$' ==> IsGroup(template, i)
  }

  /** Group n of a match, "" when there is none. */
  function Group(found: seq<string>, n: nat): string
  {
    if n < |found| then found[n] else ""
  }

  function Expand(template: string, found: seq<string>): string
  {
    if template == "" then ""
    else if IsGroup(template, 0) then
      Group(found, template[1] as int - '0' as int) + Expand(template[2..], found)
    else [template[0]] + Expand(template[1..], found)
  }

  /** A match that is the whole of a non-empty text is the only one, and is replaced by the expanded template. */
  ghost predicate HonoursTemplates(lib: Library)
  {
    forall source, path, template ::
      Simple(template) && path != "" && lib.submatch(source, path).Some?
      && lib.submatch(source, path).value != [] && lib.submatch(source, path).value[0] == path ==>
        lib.replaceAll(source, path, template) == Expand(template, lib.submatch(source, path).value)
  }

  /** Text without a dollar sign stands for itself. */
  lemma {:induction false} ExpandPlain(a: string, rest: string, found: seq<string>)
    requires '$' !in a
    ensures Expand(a + rest, found) == a + Expand(rest, found)
  {
    if a == "" {
      assert a + rest == rest;
    } else {
      assert (a + rest)[1..] == a[1..] + rest && a[0] in a;
      ExpandPlain(a[1..], rest, found);
      assert [a[0]] + a[1..] == a;
    }
  }

  lemma ExpandStep(template: string, found: seq<string>)
    ensures Expand("", found) == ""
    ensures IsGroup(template, 0) ==>
              Expand(template, found) == Group(found, template[1] as int - '0' as int) + Expand(template[2..], found)
  {
  }

  /** A dollar sign and a digit stand for the group of that number. */
  lemma ExpandGroup(template: string, digit: char, rest: string, found: seq<string>)
    requires template == ['$', digit] + rest
    requires '1' <= digit <= '9' && digit as int - '0' as int < |found| && (rest != "" ==> !WordChar(rest[0]))
    ensures Expand(template, found) == found[digit as int - '0' as int] + Expand(rest, found)
  {
    hide WordChar, Expand;
    assert template[2..] == rest;
    assert rest != "" ==> template[2] == rest[0];
    ExpandStep(template, found);
  }
}
