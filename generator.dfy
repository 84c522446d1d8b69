/**
 * ProjectGeneratorService: the text functions that turn the diagram's
 * class nodes into Angular component sources and rewrite app.module.ts.
 */
module ProjectGenerator {
  import opened Wrappers
  import opened Text
  import opened Pattern

  /** One entry of a node's attribute or method list, `{ text: "+ nombre: tipo" }`. */
  datatype Member = Member(text: string)

  /**
   * One element of the diagram's nodeDataArray. Actors, use cases and
   * systems carry no atributos/metodos arrays: None stands for undefined.
   */
  datatype NodeRecord = NodeRecord(nombre: string, atributos: Option<seq<Member>>, metodos: Option<seq<Member>>)

  /** The TypeError JavaScript throws when a node has no atributos or metodos array. */
  datatype GenError = MissingMemberList

  const ComponentSuffix := "Component"

  // ---------------------------------------------------------------------
  // sanitizeClassName
  // ---------------------------------------------------------------------

  /** name.replace(/[^a-zA-Z0-9]/g, ''): the ASCII letters and digits of s, in order. */
  function KeepAlnum(s: string): (r: string)
    ensures AllAsciiAlnum(r)
    ensures |r| <= |s|
  {
    if s == [] then []
    else (if IsAsciiAlnum(s[0]) then [s[0]] else []) + KeepAlnum(s[1..])
  }

  /** The filter works piecewise. */
  lemma {:induction false} KeepAlnumAppend(a: string, b: string)
    ensures KeepAlnum(a + b) == KeepAlnum(a) + KeepAlnum(b)
  {
    if a == [] {
      assert a + b == b;
    } else {
      var head := if IsAsciiAlnum(a[0]) then [a[0]] else [];
      assert (a + b)[0] == a[0];
      assert (a + b)[1..] == a[1..] + b;
      assert KeepAlnum(a + b) == head + KeepAlnum(a[1..] + b);
      KeepAlnumAppend(a[1..], b);
      assert head + (KeepAlnum(a[1..]) + KeepAlnum(b)) == (head + KeepAlnum(a[1..])) + KeepAlnum(b);
    }
  }

  /** One character is kept exactly when it is an ASCII letter or digit, and dropped otherwise. */
  lemma KeepAlnumOne(c: char)
    ensures IsAsciiAlnum(c) ==> KeepAlnum([c]) == [c]
    ensures !IsAsciiAlnum(c) ==> KeepAlnum([c]) == []
  {
    assert [c][1..] == [];
  }

  /** A string without letters or digits is removed entirely. */
  lemma {:induction false} KeepAlnumDropsAll(s: string)
    requires forall k :: 0 <= k < |s| ==> !IsAsciiAlnum(s[k])
    ensures KeepAlnum(s) == []
  {
    if s != [] {
      KeepAlnumDropsAll(s[1..]);
    }
  }

  /** The filter keeps a string of letters and digits whole. */
  lemma {:induction false} KeepAlnumOfAlnum(s: string)
    requires AllAsciiAlnum(s)
    ensures KeepAlnum(s) == s
  {
    if s != [] {
      KeepAlnumOfAlnum(s[1..]);
    }
  }

  /**
   * sanitizeClassName: the letters and digits of the name, without a
   * leading digit (one at most: the second regular expression is anchored
   * and not global), followed by "Component".
   */
  function SanitizeClassName(name: string): (r: string)
    ensures |r| >= |ComponentSuffix| && r[|r| - |ComponentSuffix|..] == ComponentSuffix
    ensures AllAsciiAlnum(r)
    ensures var f, n := KeepAlnum(name), |r| - |ComponentSuffix|;
      && n <= |f| <= n + 1
      && r[..n] == f[|f| - n..]
      && (|f| == n + 1 <==> f != [] && IsAsciiDigit(f[0]))
  {
    var f := KeepAlnum(name);
    var p := if f != [] && IsAsciiDigit(f[0]) then f[1..] else f;
    assert p == f[|f| - |p|..];
    var r := p + ComponentSuffix;
    assert r[..|p|] == p && r[|p|..] == ComponentSuffix;
    AlnumSuffixed(p);
    r
  }

  /** Appending the suffix to letters and digits gives letters and digits. */
  lemma AlnumSuffixed(p: string)
    requires AllAsciiAlnum(p)
    ensures AllAsciiAlnum(p + ComponentSuffix)
  {
    assert AllAsciiAlnum(ComponentSuffix) by {
      assert forall k :: 0 <= k < |ComponentSuffix| ==> IsAsciiAlnum(ComponentSuffix[k]);
    }
    forall k | 0 <= k < |p + ComponentSuffix|
      ensures IsAsciiAlnum((p + ComponentSuffix)[k])
    {
      if k >= |p| {
        assert (p + ComponentSuffix)[k] == ComponentSuffix[k - |p|];
      }
    }
  }

  /** Only one leading digit goes: "12ab" becomes "2abComponent", still starting with a digit. */
  lemma SanitizeDropsOneDigit()
    ensures SanitizeClassName("12ab") == "2abComponent"
  {
    var f := "12ab";
    assert AllAsciiAlnum(f) by {
      assert IsAsciiAlnum(f[0]) && IsAsciiAlnum(f[1]) && IsAsciiAlnum(f[2]) && IsAsciiAlnum(f[3]);
    }
    KeepAlnumOfAlnum(f);
    assert IsAsciiDigit(f[0]) && f[1..] == "2ab";
    assert "2ab" + ComponentSuffix == "2abComponent";
  }

  // ---------------------------------------------------------------------
  // validateType, parseAttribute, parseMethodName
  // ---------------------------------------------------------------------

  const ValidTypes: seq<string> := ["string", "number", "boolean", "Date"]

  /** validateType: the type itself when it is on the whitelist, 'string' otherwise. */
  function ValidateType(t: string): (r: string)
    ensures r in ValidTypes
    ensures r == t <==> t in ValidTypes
    ensures t !in ValidTypes ==> r == "string"
  {
    if t in ValidTypes then t else "string"
  }

  /** Applying validateType twice is applying it once. */
  lemma ValidateTypeIdempotent(t: string)
    ensures ValidateType(ValidateType(t)) == ValidateType(t)
  {
  }

  predicate IsModifier(c: char) { c == '+' || c == '-' || c == '~' }

  /** text.replace(/^[+\-~]/, ''): drops one leading access modifier. */
  function StripModifier(s: string): (r: string)
    ensures |s| > 0 && IsModifier(s[0]) ==> r == s[1..]
    ensures !(|s| > 0 && IsModifier(s[0])) ==> r == s
  {
    if |s| > 0 && IsModifier(s[0]) then s[1..] else s
  }

  /**
   * parseAttribute: strip one modifier, trim, split on ':'; the name is
   * the first piece trimmed, the type the second piece trimmed and
   * validated, or 'string' when there is no ':'. Later pieces are ignored.
   */
  function ParseAttribute(text: string): (r: (string, string))
    ensures r.1 in ValidTypes
    ensures ':' !in r.0 && Trimmed(r.0)
    ensures ':' !in Trim(StripModifier(text)) ==> r == (Trim(StripModifier(text)), "string")
  {
    var cleaned := Trim(StripModifier(text));
    var parts := Split(cleaned, ':');
    var name := Trim(parts[0]);
    var ty := if |parts| > 1 then ValidateType(Trim(parts[1])) else "string";
    TrimAbsent(parts[0], ':');
    if ':' !in cleaned then
      SplitWithout(cleaned, ':');
      TrimTrimmed(cleaned);
      (name, ty)
    else
      (name, ty)
  }

  /** parseMethodName: the text before the first '(', without one leading modifier, trimmed. */
  function ParseMethodName(text: string): (r: string)
    ensures '(' !in r && Trimmed(r)
  {
    var before := Split(text, '(')[0];
    TrimAbsent(StripModifier(before), '(');
    Trim(StripModifier(before))
  }

  /** trim() only removes characters. */
  lemma TrimAbsent(s: string, c: char)
    requires c !in s
    ensures c !in Trim(s)
  {
    var r := Trim(s);
    var i := LeadingWhitespace(s);
    forall k | 0 <= k < |r| ensures r[k] != c {
      assert r[k] == s[i + k];
    }
  }

  /** The label the designer writes for an attribute: "+ name: type". */
  function AttributeLabel(name: string, ty: string): string {
    "+ " + name + ": " + ty
  }

  /** The label the designer writes for a method: "+ name(): type". */
  function MethodLabel(name: string, ret: string): string {
    "+ " + name + "(): " + ret
  }

  /** parseAttribute reads back a label written as "+ name: type", validating the type. */
  lemma ParseAttributeLabel(name: string, ty: string)
    requires ':' !in name && Trimmed(name)
    requires ':' !in ty && Trimmed(ty) && ty != []
    ensures ParseAttribute(AttributeLabel(name, ty)) == (name, ValidateType(ty))
  {
    ParseAttributeWithRest(name, ty, "");
    assert AttributeLabel(name, ty) + "" == AttributeLabel(name, ty);
  }

  /** Pieces after the second are ignored: "+ name: type:more" parses like "+ name: type". */
  lemma ParseAttributeWithRest(name: string, ty: string, more: string)
    requires ':' !in name && Trimmed(name)
    requires ':' !in ty && Trimmed(ty) && ty != []
    requires more == [] || (more[0] == ':' && Trimmed(more))
    ensures ParseAttribute(AttributeLabel(name, ty) + more) == (name, ValidateType(ty))
  {
    var text := AttributeLabel(name, ty) + more;
    var cleaned := name + ": " + ty + more;
    CleanedLabel(name, ty, more);
    SplitLabel(name, ty, more);
    var parts := Split(cleaned, ':');
    TrimTrimmed(name);
    TrimPadded(" ", ty, "");
    assert " " + ty + "" == " " + ty;
    assert Trim(parts[0]) == name;
    assert Trim(parts[1]) == ty;
  }

  /** Stripping the modifier and trimming leaves "name: type" and what follows. */
  lemma CleanedLabel(name: string, ty: string, more: string)
    requires Trimmed(name) && Trimmed(ty) && ty != []
    requires more == [] || Trimmed(more)
    ensures Trim(StripModifier(AttributeLabel(name, ty) + more)) == name + ": " + ty + more
  {
    var x := name + ": " + ty + more;
    assert StripModifier(AttributeLabel(name, ty) + more) == " " + x + "";
    assert x[0] == (if name == [] then ':' else name[0]);
    assert x[|x| - 1] == (if more == [] then ty[|ty| - 1] else more[|more| - 1]);
    TrimPadded(" ", x, "");
  }

  /** "name: type" and what follows splits into name, " type" and the pieces of the rest. */
  lemma SplitLabel(name: string, ty: string, more: string)
    requires ':' !in name && ':' !in ty
    requires more == [] || more[0] == ':'
    ensures var parts := Split(name + ": " + ty + more, ':');
      |parts| >= 2 && parts[0] == name && parts[1] == " " + ty
  {
    var rest := " " + ty + more;
    assert name + ": " + ty + more == name + [':'] + rest;
    SplitAtSeparator(name, rest, ':');
    if more == [] {
      assert rest == " " + ty;
      SplitWithout(rest, ':');
    } else {
      assert rest == " " + ty + [':'] + more[1..];
      SplitAtSeparator(" " + ty, more[1..], ':');
    }
  }

  /** The modifier is stripped before trimming: after leading whitespace it stays in the name. */
  lemma ParseAttributeKeepsModifierAfterSpace(m: char, name: string, ty: string)
    requires IsModifier(m)
    requires ':' !in name && Trimmed(name)
    requires ':' !in ty && Trimmed(ty) && ty != []
    ensures ParseAttribute(" " + [m] + name + ": " + ty) == ([m] + name, ValidateType(ty))
  {
    var written := AttributeLabel([m] + name, ty);
    var text := " " + [m] + name + ": " + ty;
    assert written[1..] == text;
    assert StripModifier(text) == StripModifier(written);
    ParseAttributeLabel([m] + name, ty);
  }

  /** The attribute the designer adds, "+ nuevoAtributo: tipo", is read as a string attribute named nuevoAtributo. */
  lemma DefaultAttributeParses()
    ensures ParseAttribute(AttributeLabel("nuevoAtributo", "tipo")) == ("nuevoAtributo", "string")
  {
    ParseAttributeLabel("nuevoAtributo", "tipo");
  }

  /**
   * parseAttribute by positions: the name is the cleaned text up to the
   * first ':', the type the text between the first and the second ':'
   * (or the end), and 'string' when there is no ':' at all.
   */
  lemma ParseAttributeByColons(text: string)
    ensures var cleaned := Trim(StripModifier(text));
      var i := IndexOf(cleaned, ':');
      && ParseAttribute(text).0 == Trim(cleaned[..i])
      && (i == |cleaned| ==> ParseAttribute(text).1 == "string")
      && (i < |cleaned| ==>
            var rest := cleaned[i + 1..];
            ParseAttribute(text).1 == ValidateType(Trim(rest[..IndexOf(rest, ':')])))
  {
    var cleaned := Trim(StripModifier(text));
    SplitFirst(cleaned, ':');
    SplitSecond(cleaned, ':');
  }

  /** parseMethodName looks only at the text before the first '('. */
  lemma ParseMethodNameBeforeParen(text: string)
    ensures ParseMethodName(text) == Trim(StripModifier(text[..IndexOf(text, '(')]))
  {
    SplitFirst(text, '(');
  }

  /** parseMethodName reads back the name of a label written as "+ name(): type". */
  lemma ParseMethodLabel(name: string, ret: string)
    requires '(' !in name && Trimmed(name)
    ensures ParseMethodName(MethodLabel(name, ret)) == name
  {
    var text := MethodLabel(name, ret);
    assert text == ("+ " + name) + ['('] + ("): " + ret);
    SplitAtSeparator("+ " + name, "): " + ret, '(');
    assert StripModifier("+ " + name) == " " + name + "";
    TrimPadded(" ", name, "");
  }

  /** The method the designer adds, "+ nuevoMetodo(): tipo", is named nuevoMetodo. */
  lemma DefaultMethodParses()
    ensures ParseMethodName(MethodLabel("nuevoMetodo", "tipo")) == "nuevoMetodo"
  {
    ParseMethodLabel("nuevoMetodo", "tipo");
  }

  // ---------------------------------------------------------------------
  // getComponentTs
  // ---------------------------------------------------------------------

  /** The lines of the component template filled in for componentName. */
  /**
   * The comment line of the component class. It is written as two literals
   * because the verifier sees that a literal of this length has no line
   * break only when it is split.
   */
  const ComponentTsComment := "  // Atributos y métodos " + "se añadirán dinámicamente"

  function ComponentTsLines(componentName: string): seq<string> {
    [ "import { Component } from '@angular/core';",
      "",
      "@Component({",
      "  selector: 'app-" + ToLowerAscii(componentName) + "',",
      "  templateUrl: './" + componentName + ".component.html',",
      "  styleUrls: ['./" + componentName + ".component.css']",
      "})",
      "export class " + componentName + "Component {",
      ComponentTsComment,
      "}",
      "" ]
  }

  lemma ComponentTsLinesUnbroken(componentName: string)
    requires '\n' !in componentName
    ensures forall k :: 0 <= k < |ComponentTsLines(componentName)| ==> '\n' !in ComponentTsLines(componentName)[k]
  {
    ComponentTsFixedLinesUnbroken(componentName);
    ComponentTsCommentUnbroken(componentName);
    ComponentTsNamedLinesUnbroken(componentName);
  }

  lemma ComponentTsFixedLinesUnbroken(componentName: string)
    ensures var lines := ComponentTsLines(componentName);
      && '\n' !in lines[0] && '\n' !in lines[1] && '\n' !in lines[2]
      && '\n' !in lines[6] && '\n' !in lines[9] && '\n' !in lines[10]
  {
    ComponentTsImportUnbroken(componentName);
  }

  lemma ComponentTsImportUnbroken(componentName: string)
    ensures '\n' !in ComponentTsLines(componentName)[0]
  {
    var front, back := "import { Component } ", "from '@angular/core';";
    assert ComponentTsLines(componentName)[0] == front + back;
  }

  lemma ComponentTsCommentUnbroken(componentName: string)
    ensures '\n' !in ComponentTsLines(componentName)[8]
  {
    assert ComponentTsLines(componentName)[8] == ComponentTsComment;
    CommentUnbroken();
  }

  lemma CommentUnbroken()
    ensures '\n' !in ComponentTsComment
  {
  }

  lemma ComponentTsNamedLinesUnbroken(componentName: string)
    requires '\n' !in componentName
    ensures var lines := ComponentTsLines(componentName);
      '\n' !in lines[3] && '\n' !in lines[4] && '\n' !in lines[5] && '\n' !in lines[7]
  {
    var lower := ToLowerAscii(componentName);
    assert '\n' !in lower by {
      forall k | 0 <= k < |lower| ensures lower[k] != '\n' {
        assert componentName[k] != '\n';
      }
    }
    SelectorLineUnbroken(lower);
    TemplateUrlLineUnbroken(componentName);
    StyleUrlsLineUnbroken(componentName);
    ClassLineUnbroken(componentName);
  }

  lemma SelectorLineUnbroken(lower: string)
    requires '\n' !in lower
    ensures '\n' !in "  selector: 'app-" + lower + "',"
  {
    var a := "  selector: 'app-";
    assert '\n' !in a by { assert forall k :: 0 <= k < |a| ==> a[k] != '\n'; }
    EnclosedUnbroken(a, lower, "',");
  }

  lemma TemplateUrlLineUnbroken(c: string)
    requires '\n' !in c
    ensures '\n' !in "  templateUrl: './" + c + ".component.html',"
  {
    var a, b := "  templateUrl: './", ".component.html',";
    assert '\n' !in a by { assert forall k :: 0 <= k < |a| ==> a[k] != '\n'; }
    assert '\n' !in b by { assert forall k :: 0 <= k < |b| ==> b[k] != '\n'; }
    EnclosedUnbroken(a, c, b);
  }

  lemma StyleUrlsLineUnbroken(c: string)
    requires '\n' !in c
    ensures '\n' !in "  styleUrls: ['./" + c + ".component.css']"
  {
    var a, b := "  styleUrls: ['./", ".component.css']";
    assert '\n' !in a by { assert forall k :: 0 <= k < |a| ==> a[k] != '\n'; }
    assert '\n' !in b by { assert forall k :: 0 <= k < |b| ==> b[k] != '\n'; }
    EnclosedUnbroken(a, c, b);
  }

  lemma ClassLineUnbroken(c: string)
    requires '\n' !in c
    ensures '\n' !in "export class " + c + "Component {"
  {
    var a, b := "export class ", "Component {";
    assert '\n' !in a by { assert forall k :: 0 <= k < |a| ==> a[k] != '\n'; }
    assert '\n' !in b by { assert forall k :: 0 <= k < |b| ==> b[k] != '\n'; }
    EnclosedUnbroken(a, c, b);
  }

  /**
   * getComponentTs: the component source. For a name without line breaks
   * its lines are the template's lines, the last one empty because the
   * source ends with a line break.
   */
  function GetComponentTs(componentName: string): (r: string)
    ensures '\n' !in componentName ==> Split(r, '\n') == ComponentTsLines(componentName)
  {
    var lines := ComponentTsLines(componentName);
    if '\n' !in componentName then
      ComponentTsLinesUnbroken(componentName);
      SplitJoinChar(lines, '\n');
      Join(lines, "\n")
    else
      Join(lines, "\n")
  }

  /**
   * For a sanitized name p + "Component" the selector is the lower-cased
   * name and the class is p + "ComponentComponent": the suffix is added twice.
   */
  lemma ComponentTsNames(name: string)
    ensures var c := SanitizeClassName(name);
      var lines := Split(GetComponentTs(c), '\n');
      && |lines| == 11
      && lines[3] == "  selector: 'app-" + ToLowerAscii(c) + "',"
      && AllAsciiAlnum(ToLowerAscii(c)) && (forall k :: 0 <= k < |c| ==> !IsAsciiUpper(ToLowerAscii(c)[k]))
      && lines[7] == "export class " + c[..|c| - |ComponentSuffix|] + "ComponentComponent {"
  {
    var c := SanitizeClassName(name);
    assert '\n' !in c by { assert !IsAsciiAlnum('\n'); }
    TsLinesOf(c);
    LowerOfAlnum(c);
    var p := c[..|c| - |ComponentSuffix|];
    assert c == p + ComponentSuffix;
    SuffixTwice(p);
  }

  /** The lines of the .ts file for a name without line breaks. */
  lemma TsLinesOf(c: string)
    requires '\n' !in c
    ensures var lines := Split(GetComponentTs(c), '\n');
      && |lines| == 11
      && lines[3] == "  selector: 'app-" + ToLowerAscii(c) + "',"
      && lines[7] == "export class " + c + "Component {"
  {
    assert Split(GetComponentTs(c), '\n') == ComponentTsLines(c);
    TsNamedLines(c);
  }

  /** The selector and class lines of the template. */
  lemma TsNamedLines(c: string)
    ensures var lines := ComponentTsLines(c);
      && |lines| == 11
      && lines[3] == "  selector: 'app-" + ToLowerAscii(c) + "',"
      && lines[7] == "export class " + c + "Component {"
  {
  }

  /** Lower-casing letters and digits gives letters and digits, none upper-case. */
  lemma LowerOfAlnum(c: string)
    requires AllAsciiAlnum(c)
    ensures AllAsciiAlnum(ToLowerAscii(c)) && forall k :: 0 <= k < |c| ==> !IsAsciiUpper(ToLowerAscii(c)[k])
  {
    var lower := ToLowerAscii(c);
    forall k | 0 <= k < |c|
      ensures IsAsciiAlnum(lower[k]) && !IsAsciiUpper(lower[k])
    {
      assert lower[k] == LowerAscii(c[k]);
    }
  }

  /** The class line of p + "Component" ends in "ComponentComponent {". */
  lemma SuffixTwice(p: string)
    ensures "export class " + (p + ComponentSuffix) + "Component {" == "export class " + p + "ComponentComponent {"
  {
    assert ComponentSuffix + "Component {" == "ComponentComponent {";
  }

  // ---------------------------------------------------------------------
  // getComponentHtml
  // ---------------------------------------------------------------------

  /** One attribute as the page shows it. */
  function AttributeLine(m: Member): string {
    var (name, ty) := ParseAttribute(m.text);
    "<p>" + name + ": " + ty + "</p>"
  }

  /** One method as the page shows it: a button calling it. */
  function MethodLine(m: Member): string {
    var name := ParseMethodName(m.text);
    "<button (click)=\"" + name + "()\">" + name + "</button>"
  }

  function AttributeLines(ms: seq<Member>): seq<string> {
    seq(|ms|, k requires 0 <= k < |ms| => AttributeLine(ms[k]))
  }

  function MethodLines(ms: seq<Member>): seq<string> {
    seq(|ms|, k requires 0 <= k < |ms| => MethodLine(ms[k]))
  }

  /**
   * getComponentHtml: the page for one class node. It throws (here:
   * Failure) when the node has no atributos or no metodos array.
   */
  /** Both member lists are present (the template maps over both). */
  predicate HasMemberLists(node: NodeRecord) {
    node.atributos.Some? && node.metodos.Some?
  }

  function GetComponentHtml(node: NodeRecord): (r: Result<string, GenError>)
    ensures r.Success? <==> HasMemberLists(node)
  {
    if node.atributos.None? || node.metodos.None? then Failure(MissingMemberList)
    else
      var attributes := Join(AttributeLines(node.atributos.value), "\n");
      var methods := Join(MethodLines(node.metodos.value), "\n");
      Success("\n<div class=\"class-container\">\n  <h2>" + node.nombre + "</h2>\n  <div class=\"attributes\">"
        + attributes + "</div>\n  <div class=\"methods\">" + methods + "</div>\n</div>\n")
  }

  /** parseAttribute only ever keeps characters of the label in the name. */
  lemma AttributeNameWithinLabel(text: string, d: char)
    requires d !in text
    ensures d !in ParseAttribute(text).0
  {
    var stripped := StripModifier(text);
    TrimAbsent(stripped, d);
    var cleaned := Trim(stripped);
    SplitFirst(cleaned, ':');
    TrimAbsent(Split(cleaned, ':')[0], d);
  }

  /** parseMethodName only ever keeps characters of the label. */
  lemma MethodNameWithinLabel(text: string, d: char)
    requires d !in text
    ensures d !in ParseMethodName(text)
  {
    SplitFirst(text, '(');
    var before := Split(text, '(')[0];
    TrimAbsent(StripModifier(before), d);
  }

  /** The whitelisted types are plain words. */
  lemma ValidTypeUnbroken(t: string)
    requires t in ValidTypes
    ensures '\n' !in t
  {
    assert t == "string" || t == "number" || t == "boolean" || t == "Date";
  }

  lemma AttributeLineUnbroken(m: Member)
    requires '\n' !in m.text
    ensures '\n' !in AttributeLine(m)
  {
    var parsed := ParseAttribute(m.text);
    AttributeNameWithinLabel(m.text, '\n');
    ValidTypeUnbroken(parsed.1);
    ParagraphUnbroken(parsed.0, parsed.1);
  }

  lemma ParagraphUnbroken(name: string, ty: string)
    requires '\n' !in name && '\n' !in ty
    ensures '\n' !in "<p>" + name + ": " + ty + "</p>"
  {
    WrappedUnbroken("<p>", name, ": ", ty, "</p>");
  }

  lemma MethodLineUnbroken(m: Member)
    requires '\n' !in m.text
    ensures '\n' !in MethodLine(m)
  {
    MethodNameWithinLabel(m.text, '\n');
    ButtonUnbroken(ParseMethodName(m.text));
  }

  lemma ButtonUnbroken(name: string)
    requires '\n' !in name
    ensures '\n' !in "<button (click)=\"" + name + "()\">" + name + "</button>"
  {
    var opening := "<button (click)=\"";
    assert '\n' !in opening by {
      assert forall k :: 0 <= k < |opening| ==> opening[k] != '\n';
    }
    WrappedUnbroken(opening, name, "()\">", name, "</button>");
  }

  lemma EnclosedUnbroken(a: string, x: string, b: string)
    requires '\n' !in a && '\n' !in x && '\n' !in b
    ensures '\n' !in a + x + b
  {
  }

  lemma WrappedUnbroken(a: string, x: string, b: string, y: string, c: string)
    requires '\n' !in a && '\n' !in x && '\n' !in b && '\n' !in y && '\n' !in c
    ensures '\n' !in a + x + b + y + c
  {
  }

  /**
   * The attribute block has one line per attribute, in order, each a
   * <p>name: type</p> of the parsed label with a whitelisted type
   * (for labels without line breaks). An empty list gives an empty block,
   * so the page keeps an empty line in its place.
   */
  lemma AttributeBlockLines(ms: seq<Member>)
    requires forall k :: 0 <= k < |ms| ==> '\n' !in ms[k].text
    ensures ms == [] ==> Join(AttributeLines(ms), "\n") == ""
    ensures ms != [] ==>
      var lines := Split(Join(AttributeLines(ms), "\n"), '\n');
      && |lines| == |ms|
      && forall k :: 0 <= k < |ms| ==>
           lines[k] == "<p>" + ParseAttribute(ms[k].text).0 + ": " + ParseAttribute(ms[k].text).1 + "</p>"
           && ParseAttribute(ms[k].text).1 in ValidTypes
  {
    var lines := AttributeLines(ms);
    forall k | 0 <= k < |lines| ensures '\n' !in lines[k] {
      AttributeLineUnbroken(ms[k]);
    }
    if ms != [] {
      SplitJoinChar(lines, '\n');
    }
  }

  /** The method block has one button per method, in order, calling the parsed method name. */
  lemma MethodBlockLines(ms: seq<Member>)
    requires forall k :: 0 <= k < |ms| ==> '\n' !in ms[k].text
    ensures ms == [] ==> Join(MethodLines(ms), "\n") == ""
    ensures ms != [] ==>
      var lines := Split(Join(MethodLines(ms), "\n"), '\n');
      && |lines| == |ms|
      && forall k :: 0 <= k < |ms| ==>
           lines[k] == "<button (click)=\"" + ParseMethodName(ms[k].text) + "()\">" + ParseMethodName(ms[k].text) + "</button>"
  {
    var lines := MethodLines(ms);
    forall k | 0 <= k < |lines| ensures '\n' !in lines[k] {
      MethodLineUnbroken(ms[k]);
    }
    if ms != [] {
      SplitJoinChar(lines, '\n');
    }
  }

  // ---------------------------------------------------------------------
  // updateAppModule
  // ---------------------------------------------------------------------

  /** /import {[^}]*} from '@angular\/core';/ */
  const AngularCoreImport := Shape("import {", '}', "} from '@angular/core';")

  /** /declarations: \[([^\]]*)\]/ */
  const DeclarationsList := Shape("declarations: [", ']', "]")

  const DeclarationSeparator := ",\n    "

  /** The import line added for one node. */
  function ImportLine(node: NodeRecord): string {
    var c := SanitizeClassName(node.nombre);
    "import { " + c + " } from './" + c + "/" + c + ".component';"
  }

  function ImportLines(nodes: seq<NodeRecord>): seq<string> {
    seq(|nodes|, k requires 0 <= k < |nodes| => ImportLine(nodes[k]))
  }

  function ClassNames(nodes: seq<NodeRecord>): seq<string> {
    seq(|nodes|, k requires 0 <= k < |nodes| => SanitizeClassName(nodes[k].nombre))
  }

  /** `$&` followed by `block` at the end of the leftmost match of `p`. */
  function AppendAfterMatch(s: string, p: Shape, block: string): (r: string)
    requires WellFormed(p)
    ensures Leftmost(s, p).None? ==> r == s
    ensures Leftmost(s, p).Some? ==>
      var e := Leftmost(s, p).value.1;
      && e <= |s| && |r| == |s| + |block|
      && r[..e] == s[..e] && r[e..e + |block|] == block && r[e + |block|..] == s[e..]
  {
    var m := Leftmost(s, p);
    if m.None? then s
    else
      var e := m.value.1;
      assert MatchAt(s, p, m.value.0, e);
      s[..e] + block + s[e..]
  }

  /**
   * The first replace: the new import lines go right after the leftmost
   * import from '@angular/core' ($& followed by a line break and the
   * lines). Nothing else changes; without such an import nothing changes.
   */
  function InsertImports(s: string, nodes: seq<NodeRecord>): (r: string)
    ensures NoMatch(s, AngularCoreImport) ==> r == s
    ensures Leftmost(s, AngularCoreImport).Some? ==>
      var e := Leftmost(s, AngularCoreImport).value.1;
      e <= |s| && r == s[..e] + "\n" + Join(ImportLines(nodes), "\n") + s[e..]
  {
    var block := "\n" + Join(ImportLines(nodes), "\n");
    var r := AppendAfterMatch(s, AngularCoreImport, block);
    assert Leftmost(s, AngularCoreImport).Some? ==>
      var e := Leftmost(s, AngularCoreImport).value.1;
      r == s[..e] + block + s[e..];
    r
  }

  /**
   * `head` + line break + indentation + `$1` + `glue` + `added` + line
   * break + `tail` in place of the leftmost match of `p`.
   */
  function RewriteList(s: string, p: Shape, glue: string, added: string): (r: string)
    requires WellFormed(p)
    ensures Leftmost(s, p).None? ==> r == s
    ensures Leftmost(s, p).Some? ==>
      var (i, e) := Leftmost(s, p).value;
      && i + |p.head| + |p.tail| <= e <= |s|
      && s[i..i + |p.head|] == p.head && s[e - |p.tail|..e] == p.tail
      && p.stop !in s[i + |p.head|..e - |p.tail|]
      && r == s[..i] + p.head + "\n    " + s[i + |p.head|..e - |p.tail|] + glue + added + "\n" + p.tail + s[e..]
  {
    var m := Leftmost(s, p);
    if m.None? then s
    else
      var (i, e) := m.value;
      assert MatchAt(s, p, i, e);
      s[..i] + p.head + "\n    " + s[i + |p.head|..e - |p.tail|] + glue + added + "\n" + p.tail + s[e..]
  }

  /**
   * The second replace: the leftmost declarations list keeps its old
   * contents ($1) and gains the class names, one per line; nothing else
   * changes, and without such a list nothing changes.
   */
  function ExtendDeclarations(s: string, nodes: seq<NodeRecord>): (r: string)
    ensures NoMatch(s, DeclarationsList) ==> r == s
    ensures Leftmost(s, DeclarationsList).Some? ==>
      var (i, e) := Leftmost(s, DeclarationsList).value;
      var (head, tail) := (DeclarationsList.head, DeclarationsList.tail);
      && i + |head| + |tail| <= e <= |s|
      && r == s[..i] + head + "\n    " + s[i + |head|..e - |tail|]
              + DeclarationSeparator + Join(ClassNames(nodes), DeclarationSeparator) + "\n" + tail + s[e..]
  {
    RewriteList(s, DeclarationsList, DeclarationSeparator, Join(ClassNames(nodes), DeclarationSeparator))
  }

  /**
   * updateAppModule: both replaces, in order. When neither pattern occurs
   * the module comes back unchanged.
   */
  function UpdateAppModule(original: string, nodes: seq<NodeRecord>): (r: string)
    ensures NoMatch(original, AngularCoreImport) && NoMatch(original, DeclarationsList) ==> r == original
  {
    ExtendDeclarations(InsertImports(original, nodes), nodes)
  }

  /** A sanitized class name has no line break, comma, slash or quote. */
  lemma SanitizedIsPlain(name: string)
    ensures var c := SanitizeClassName(name);
      '\n' !in c && ',' !in c && '/' !in c && '\'' !in c
  {
    var c := SanitizeClassName(name);
    assert !IsAsciiAlnum('\n') && !IsAsciiAlnum(',') && !IsAsciiAlnum('/') && !IsAsciiAlnum('\'');
  }

  /**
   * The import block has one line per node, in nodeDataArray order, each
   * importing the node's sanitized class name from its own folder. With no
   * nodes the block is empty, so the first replace adds a lone line break.
   */
  lemma ImportBlockLines(nodes: seq<NodeRecord>)
    ensures nodes == [] ==> Join(ImportLines(nodes), "\n") == ""
    ensures nodes != [] ==> Split(Join(ImportLines(nodes), "\n"), '\n') == ImportLines(nodes)
    ensures forall k :: 0 <= k < |nodes| ==>
      var c := SanitizeClassName(nodes[k].nombre);
      ImportLines(nodes)[k] == "import { " + c + " } from './" + c + "/" + c + ".component';"
  {
    var lines := ImportLines(nodes);
    forall k | 0 <= k < |lines| ensures '\n' !in lines[k] {
      var c := SanitizeClassName(nodes[k].nombre);
      SanitizedIsPlain(nodes[k].nombre);
      WrappedUnbroken("import { ", c, " } from './", c, "/");
      EnclosedUnbroken("import { " + c + " } from './" + c + "/", c, ".component';");
    }
    if nodes != [] {
      SplitJoinChar(lines, '\n');
    }
  }

  /**
   * The added declarations are the nodes' class names in order: split on
   * ',' the first piece is the first name, every later piece a line break,
   * the indentation and the next name. With no nodes nothing is added, so
   * the list keeps $1 followed by the separator and a line break.
   */
  lemma DeclarationBlockNames(nodes: seq<NodeRecord>)
    ensures nodes == [] ==> Join(ClassNames(nodes), DeclarationSeparator) == ""
    ensures nodes != [] ==>
      var pieces := Split(Join(ClassNames(nodes), DeclarationSeparator), ',');
      && |pieces| == |nodes|
      && pieces[0] == SanitizeClassName(nodes[0].nombre)
      && forall k :: 1 <= k < |nodes| ==> pieces[k] == "\n    " + SanitizeClassName(nodes[k].nombre)
  {
    var names := ClassNames(nodes);
    forall k | 0 <= k < |names| ensures ',' !in names[k] {
      SanitizedIsPlain(nodes[k].nombre);
    }
    assert DeclarationSeparator[1..] == "\n    ";
    if nodes != [] {
      SplitJoin(names, DeclarationSeparator, ',');
    }
  }
}
