/** The text routines of `RecipeRecommender`: reading a title off the
    model's completion, and building the prompt context for a detailed
    request. The model call itself is not modelled; the completion text is
    an input. */
module Recommender {
  import opened Text

  datatype Option<T> = None | Some(value: T)

  /** The marker the model is asked to put before the title. */
  const TitleMarker: string := "Title:"

  /*---------------------------------------------------------------------
    Title extraction
   ---------------------------------------------------------------------*/

  /** The lines scanned for a title: the stripped completion split on '\n'. */
  function Lines(text: string): (lines: seq<string>)
    ensures |lines| >= 1
  {
    Split(Trim(text), '\n')
  }

  /** A line that can hold the title: not blank once stripped, and not a
      '-' bullet. */
  predicate IsTitleCandidate(line: string) {
    var t := Trim(line);
    t != [] && t[0] != '-'
  }

  /** The index of the first candidate line, if there is one. */
  function FirstCandidate(lines: seq<string>): (r: Option<nat>)
    ensures r.Some? ==> r.value < |lines| && IsTitleCandidate(lines[r.value])
    ensures r.Some? ==> forall j :: 0 <= j < r.value ==> !IsTitleCandidate(lines[j])
    ensures r.None? ==> forall j :: 0 <= j < |lines| ==> !IsTitleCandidate(lines[j])
  {
    if lines == [] then None
    else if IsTitleCandidate(lines[0]) then Some(0)
    else
      assert forall j :: 1 <= j < |lines| ==> lines[j] == lines[1..][j - 1];
      match FirstCandidate(lines[1..])
      case None => None
      case Some(i) => Some(i + 1)
  }

  /** The title read off a candidate line: strip it, drop every `Title:`,
      strip again. */
  function TitleFromLine(line: string): (title: string)
    ensures IsTrimmed(title)
  {
    Trim(RemoveAll(Trim(line), TitleMarker))
  }

  /** The title `extract_recipe_parts` returns: taken from the first
      candidate line, unless there is none or it is empty once `Title:` is
      dropped; then it is the first line, stripped, with `Title:` kept. */
  function ExtractTitle(text: string): (title: string)
    ensures IsTrimmed(title)
  {
    var lines := Lines(text);
    var chosen := match FirstCandidate(lines)
      case Some(i) => TitleFromLine(lines[i])
      case None => [];
    if chosen != [] then chosen else Trim(lines[0])
  }

  /** The title is stripped and lies within one line of the completion. */
  lemma TitleShape(text: string)
    ensures IsTrimmed(ExtractTitle(text))
    ensures '\n' !in ExtractTitle(text)
  {
    var lines := Lines(text);
    var title := ExtractTitle(text);
    var k: nat := 0;
    if FirstCandidate(lines).Some? && TitleFromLine(lines[FirstCandidate(lines).value]) != [] {
      k := FirstCandidate(lines).value;
      assert title == TitleFromLine(lines[k]);
      TitleFromLineChars(lines[k]);
    } else {
      assert title == Trim(lines[0]);
      TrimChars(lines[0]);
    }
    SplitAvoids(Trim(text), '\n', k);
    assert '\n' !in lines[k];
  }

  /** The title is made of characters of the completion: nothing is
      invented, only stripped or removed. */
  lemma TitleChars(text: string)
    ensures forall c :: c in ExtractTitle(text) ==> c in text
  {
    var t := Trim(text);
    var lines := Lines(text);
    var title := ExtractTitle(text);
    var k: nat := 0;
    if FirstCandidate(lines).Some? && TitleFromLine(lines[FirstCandidate(lines).value]) != [] {
      k := FirstCandidate(lines).value;
      assert title == TitleFromLine(lines[k]);
      TitleFromLineChars(lines[k]);
    } else {
      assert title == Trim(lines[0]);
      TrimChars(lines[0]);
    }
    SplitChars(t, '\n', k);
    TrimChars(text);
    forall c | c in title ensures c in text {
      assert c in lines[k];
      assert c in t;
    }
  }

  lemma TitleFromLineChars(line: string)
    ensures forall c :: c in TitleFromLine(line) ==> c in line
  {
    var t := Trim(line);
    var u := RemoveAll(t, TitleMarker);
    TrimChars(line);
    RemoveAllChars(t, TitleMarker);
    TrimChars(u);
    forall c | c in Trim(u) ensures c in line {
      assert c in u;
      assert multiset(u)[c] > 0;
      assert c in t;
    }
  }

  /** `extract_recipe_parts`: scans the lines for the first candidate, stops
      there, and falls back to the first line when the scan yields nothing.
      The content is the completion as given. */
  method ExtractRecipeParts(recipeText: string) returns (title: string, content: string)
    ensures content == recipeText
    ensures title == ExtractTitle(recipeText)
  {
    var lines := Split(Trim(recipeText), '\n');
    title := "";
    content := recipeText;
    var i := 0;
    ghost var found := false;
    while i < |lines|
      invariant 0 <= i <= |lines|
      invariant title == "" && !found
      invariant forall j :: 0 <= j < i ==> !IsTitleCandidate(lines[j])
    {
      var line := Trim(lines[i]);
      if line != "" && line[0] != '-' {
        title := Trim(RemoveAll(line, TitleMarker));
        found := true;
        break;
      }
      i := i + 1;
    }
    assert lines == Lines(recipeText);
    if found {
      FirstCandidateIs(lines, i);
      assert title == TitleFromLine(lines[i]);
    } else {
      assert FirstCandidate(lines).None?;
    }
    if title == "" {
      title := Trim(lines[0]);
    }
  }

  /** The title is empty exactly when the completion is blank. */
  lemma TitleEmptyIffBlank(text: string)
    ensures ExtractTitle(text) == [] <==> AllSpace(text)
  {
    var t := Trim(text);
    var lines := Lines(text);
    TrimEmptyIff(text);
    if AllSpace(text) {
      assert lines == [[]];
      assert !IsTitleCandidate(lines[0]);
    } else {
      assert t != [] && !IsSpace(t[0]);
      SplitFirstPiece(t, '\n');
      assert !AllSpace(lines[0]) by {
        assert lines[0][0] == t[0];
      }
      TrimEmptyIff(lines[0]);
    }
  }

  /** When a candidate line yields a non-empty title, the title comes from
      the first candidate: every earlier line is blank or a bullet. */
  lemma {:induction false} TitleFromFirstCandidate(text: string, i: nat)
    requires i < |Lines(text)|
    requires IsTitleCandidate(Lines(text)[i])
    requires forall j :: 0 <= j < i ==> !IsTitleCandidate(Lines(text)[j])
    requires TitleFromLine(Lines(text)[i]) != []
    ensures ExtractTitle(text) == TitleFromLine(Lines(text)[i])
  {
    FirstCandidateIs(Lines(text), i);
  }

  /** The first candidate is the one that no earlier line precedes. */
  lemma FirstCandidateIs(lines: seq<string>, i: nat)
    requires i < |lines| && IsTitleCandidate(lines[i])
    requires forall j :: 0 <= j < i ==> !IsTitleCandidate(lines[j])
    ensures FirstCandidate(lines) == Some(i)
  {
  }

  /** Without a usable candidate the title is the first line, stripped,
      and `Title:` is not removed from it. */
  lemma FallbackKeepsFirstLine(text: string)
    requires forall j :: 0 <= j < |Lines(text)| ==> !IsTitleCandidate(Lines(text)[j])
    ensures ExtractTitle(text) == Trim(Lines(text)[0])
  {
    assert FirstCandidate(Lines(text)).None?;
  }

  /** When the first candidate empties out once `Title:` is dropped, the
      title is again the first line, stripped, with `Title:` kept. */
  lemma FallbackOnEmptyCandidate(text: string, i: nat)
    requires i < |Lines(text)|
    requires IsTitleCandidate(Lines(text)[i])
    requires forall j :: 0 <= j < i ==> !IsTitleCandidate(Lines(text)[j])
    requires TitleFromLine(Lines(text)[i]) == []
    ensures ExtractTitle(text) == Trim(Lines(text)[0])
  {
    FirstCandidateIs(Lines(text), i);
  }

  /** The first marker of a line is dropped wherever it stands, and the
      text before it is kept in order: "Recipe Title: Nasi Goreng" becomes
      "Recipe  Nasi Goreng". */
  lemma MarkerDroppedMidLine(x: string, y: string)
    requires forall p :: 0 <= p < |x| ==> !OccursAt(x + TitleMarker + y, TitleMarker, p)
    ensures RemoveAll(x + TitleMarker + y, TitleMarker) == x + RemoveAll(y, TitleMarker)
  {
    assert x + TitleMarker + y == x + (TitleMarker + y);
    RemoveAllKeepsPrefix(x, TitleMarker + y, TitleMarker);
    RemoveAllLeading(TitleMarker, y);
  }

  /** Text before the marker may hold its first letter: "The Title: X"
      becomes "The  X". */
  lemma MarkerAfterCapital()
    ensures RemoveAll("The Title: X", TitleMarker) == "The  X"
  {
    var x, y := "The ", " X";
    assert x + TitleMarker + y == "The Title: X";
    var s := x + TitleMarker + y;
    forall p | 0 <= p < |x| ensures !OccursAt(s, TitleMarker, p) {
      if p == 0 {
        assert s[p..p + 6][1] != TitleMarker[1];
      } else {
        assert s[p..p + 6][0] != TitleMarker[0];
      }
    }
    MarkerDroppedMidLine(x, y);
    assert RemoveAll(y, TitleMarker) == y;
    assert x + y == "The  X";
  }

  /** A line that is only the marker empties out and triggers the fallback,
      so the marker itself becomes the title. */
  lemma MarkerOnlyLine()
    ensures ExtractTitle("Title:") == "Title:"
  {
    var text := "Title:";
    assert Trim(text) == text by {
      TrimUnique([], text, []);
      assert [] + text + [] == text;
    }
    SplitNoSeparator(text, '\n');
    assert Lines(text) == [text];
    assert IsTitleCandidate(text);
    assert RemoveAll(text, TitleMarker) == [] by {
      RemoveAllLeading(TitleMarker, []);
      assert TitleMarker + [] == text;
    }
    assert TitleFromLine(text) == [];
  }

  /** A bullet line is skipped, and `Title:` is dropped from the line that
      follows it: "- 2 eggs\nTitle: Nasi Goreng" gives "Nasi Goreng". */
  lemma TitleAfterBullet(bullet: string, name: string)
    requires bullet != [] && bullet[0] == '-' && IsTrimmed(bullet) && '\n' !in bullet
    requires name != [] && IsTrimmed(name) && '\n' !in name
    requires !Contains([' '] + name, TitleMarker)
    ensures ExtractTitle(bullet + "\n" + (TitleMarker + " " + name)) == name
  {
    var line := TitleMarker + " " + name;
    MarkedLine(line, name);
    TitleOnSecondLine(bullet, line);
  }

  /** After a bullet line, a candidate line gives the title. */
  lemma TitleOnSecondLine(bullet: string, line: string)
    requires bullet != [] && bullet[0] == '-' && IsTrimmed(bullet) && '\n' !in bullet
    requires line != [] && IsTrimmed(line) && '\n' !in line
    requires IsTitleCandidate(line) && TitleFromLine(line) != []
    ensures ExtractTitle(bullet + "\n" + line) == TitleFromLine(line)
  {
    TwoLines(bullet, line);
    BulletSkipped(bullet);
    SecondLineTitle(bullet + "\n" + line, bullet, line);
  }

  /** A trimmed line starting with '-' is not a candidate. */
  lemma BulletSkipped(bullet: string)
    requires bullet != [] && bullet[0] == '-' && IsTrimmed(bullet)
    ensures !IsTitleCandidate(bullet)
  {
    TrimUnique([], bullet, []);
    assert [] + bullet + [] == bullet;
    assert Trim(bullet) == bullet;
  }

  lemma SecondLineTitle(text: string, first: string, second: string)
    requires Lines(text) == [first, second]
    requires !IsTitleCandidate(first) && IsTitleCandidate(second)
    requires TitleFromLine(second) != []
    ensures ExtractTitle(text) == TitleFromLine(second)
  {
    FirstCandidateIs([first, second], 1);
  }

  /** Two trimmed lines, one break between them. */
  lemma TwoLines(first: string, second: string)
    requires first != [] && IsTrimmed(first) && '\n' !in first
    requires second != [] && IsTrimmed(second) && '\n' !in second
    ensures Lines(first + "\n" + second) == [first, second]
  {
    var text := first + "\n" + second;
    assert text == first + ['\n'] + second;
    assert IsTrimmed(text) by {
      assert text[0] == first[0];
      assert text[|text| - 1] == second[|second| - 1];
    }
    TrimUnique([], text, []);
    assert [] + text + [] == text;
    SplitAfterPiece(first, '\n', second);
    SplitNoSeparator(second, '\n');
  }

  /** "Title: " before a name: a candidate line that yields the name. */
  lemma MarkedLine(line: string, name: string)
    requires line == TitleMarker + " " + name
    requires name != [] && IsTrimmed(name) && '\n' !in name
    requires !Contains([' '] + name, TitleMarker)
    ensures line != [] && IsTrimmed(line) && '\n' !in line
    ensures IsTitleCandidate(line) && TitleFromLine(line) == name
  {
    var rest := [' '] + name;
    assert line == TitleMarker + rest;
    assert '\n' !in TitleMarker;
    assert IsTrimmed(line) by {
      assert line[0] == 'T';
      assert line[|line| - 1] == name[|name| - 1];
    }
    TrimUnique([], line, []);
    assert [] + line + [] == line;
    assert Trim(line) == line;
    RemoveAllLeading(TitleMarker, rest);
    RemoveAllNoOccurrence(rest, TitleMarker);
    assert RemoveAll(line, TitleMarker) == rest;
    TrimLeadingBlank(name);
    assert Trim(rest) == name;
    assert TitleFromLine(line) == name;
    assert IsTitleCandidate(line);
    assert '\n' !in rest;
    assert '\n' !in line;
  }

  /*---------------------------------------------------------------------
    Prompt context
   ---------------------------------------------------------------------*/

  /** `servings or 2`: absent and zero both mean two servings. */
  function ServingsOrDefault(servings: Option<int>): (n: int)
    ensures n != 0
  {
    if servings.None? || servings.value == 0 then 2 else servings.value
  }

  function IngredientsLine(ingredients: seq<string>): (part: string) {
    "Main Ingredients Available: " + Join(ingredients, ", ")
  }

  function ServingsLine(servings: Option<int>): (part: string) {
    "Servings: " + IntToString(ServingsOrDefault(servings))
  }

  function DietaryLine(dietary: Option<seq<string>>): (part: string) {
    if dietary.Some? && dietary.value != [] then
      "Dietary Restrictions: " + Join(dietary.value, ", ")
    else
      "Dietary Restrictions: None specified"
  }

  function CuisineLine(cuisine: Option<string>): (part: string) {
    if cuisine.Some? && cuisine.value != [] then
      "Cuisine Preference: " + cuisine.value
    else
      "Cuisine Preference: Any"
  }

  function CookingTimeLine(cookingTime: Option<int>): (part: string) {
    if cookingTime.Some? && cookingTime.value != 0 then
      "Maximum Cooking Time: " + IntToString(cookingTime.value) + " minutes"
    else
      "Cooking Time: Not specified"
  }

  /** The five context parts, in their fixed order. */
  function ContextParts(ingredients: seq<string>, servings: Option<int>,
                        dietary: Option<seq<string>>, cuisine: Option<string>,
                        cookingTime: Option<int>): (parts: seq<string>)
    ensures |parts| == 5
  {
    [IngredientsLine(ingredients), ServingsLine(servings), DietaryLine(dietary),
     CuisineLine(cuisine), CookingTimeLine(cookingTime)]
  }

  /** With no line break inside any field, the context is exactly five
      lines, the parts in their fixed order. */
  lemma ContextLines(ingredients: seq<string>, servings: Option<int>,
                     dietary: Option<seq<string>>, cuisine: Option<string>,
                     cookingTime: Option<int>)
    requires forall k :: 0 <= k < |ingredients| ==> '\n' !in ingredients[k]
    requires dietary.Some? ==> forall k :: 0 <= k < |dietary.value| ==> '\n' !in dietary.value[k]
    requires cuisine.Some? ==> '\n' !in cuisine.value
    ensures Split(Join(ContextParts(ingredients, servings, dietary, cuisine, cookingTime), "\n"), '\n')
         == ContextParts(ingredients, servings, dietary, cuisine, cookingTime)
  {
    var parts := ContextParts(ingredients, servings, dietary, cuisine, cookingTime);
    NoBreakInLines(ingredients, servings, dietary, cuisine, cookingTime);
    SplitJoin(parts, '\n');
  }

  lemma NoBreakInLines(ingredients: seq<string>, servings: Option<int>,
                       dietary: Option<seq<string>>, cuisine: Option<string>,
                       cookingTime: Option<int>)
    requires forall k :: 0 <= k < |ingredients| ==> '\n' !in ingredients[k]
    requires dietary.Some? ==> forall k :: 0 <= k < |dietary.value| ==> '\n' !in dietary.value[k]
    requires cuisine.Some? ==> '\n' !in cuisine.value
    ensures forall k :: 0 <= k < 5 ==>
      '\n' !in ContextParts(ingredients, servings, dietary, cuisine, cookingTime)[k]
  {
    IngredientsLineNoBreak(ingredients);
    ServingsLineNoBreak(servings);
    DietaryLineNoBreak(dietary);
    CuisineLineNoBreak(cuisine);
    CookingTimeLineNoBreak(cookingTime);
  }

  lemma IngredientsLineNoBreak(ingredients: seq<string>)
    requires forall k :: 0 <= k < |ingredients| ==> '\n' !in ingredients[k]
    ensures '\n' !in IngredientsLine(ingredients)
  {
    JoinAvoids(ingredients, ", ", '\n');
  }

  lemma ServingsLineNoBreak(servings: Option<int>)
    ensures '\n' !in ServingsLine(servings)
  {
    IntToStringDigits(ServingsOrDefault(servings));
  }

  lemma DietaryLineNoBreak(dietary: Option<seq<string>>)
    requires dietary.Some? ==> forall k :: 0 <= k < |dietary.value| ==> '\n' !in dietary.value[k]
    ensures '\n' !in DietaryLine(dietary)
  {
    if dietary.Some? {
      JoinAvoids(dietary.value, ", ", '\n');
    }
  }

  lemma CuisineLineNoBreak(cuisine: Option<string>)
    requires cuisine.Some? ==> '\n' !in cuisine.value
    ensures '\n' !in CuisineLine(cuisine)
  {
  }

  lemma CookingTimeLineNoBreak(cookingTime: Option<int>)
    ensures '\n' !in CookingTimeLine(cookingTime)
  {
    if cookingTime.Some? && cookingTime.value != 0 {
      var head, number, tail := "Maximum Cooking Time: ", IntToString(cookingTime.value), " minutes";
      assert '\n' !in head && '\n' !in tail;
      IntToStringDigits(cookingTime.value);
      AvoidsConcat(head, number, '\n');
      AvoidsConcat(head + number, tail, '\n');
    }
  }

  /** The servings line reads "Servings: 2" exactly when servings is absent,
      zero or two. */
  lemma ServingsDefault(servings: Option<int>)
    ensures ServingsLine(servings) == "Servings: 2"
        <==> servings == None || servings == Some(0) || servings == Some(2)
  {
    var head := "Servings: ";
    assert IntToString(2) == "2";
    if ServingsLine(servings) == "Servings: 2" {
      assert head + IntToString(ServingsOrDefault(servings)) == head + IntToString(2);
      assert IntToString(ServingsOrDefault(servings)) == (head + IntToString(2))[|head|..];
      IntToStringInjective(ServingsOrDefault(servings), 2);
    }
  }

  /** The dietary line falls back to "None specified" exactly when the list
      is absent or empty, or its entries happen to join to those words. */
  lemma DietaryDefault(dietary: Option<seq<string>>)
    ensures DietaryLine(dietary) == "Dietary Restrictions: None specified"
        <==> dietary == None || dietary == Some([]) || Join(dietary.value, ", ") == "None specified"
  {
    var head := "Dietary Restrictions: ";
    if dietary.Some? && dietary.value != [] {
      var line := head + Join(dietary.value, ", ");
      assert line[|head|..] == Join(dietary.value, ", ");
      assert (head + "None specified")[|head|..] == "None specified";
    }
  }

  /** The cuisine line reads "Any" exactly when no cuisine, an empty one, or
      "Any" itself is given. */
  lemma CuisineDefault(cuisine: Option<string>)
    ensures CuisineLine(cuisine) == "Cuisine Preference: Any"
        <==> cuisine == None || cuisine == Some("") || cuisine == Some("Any")
  {
    var head := "Cuisine Preference: ";
    if cuisine.Some? && cuisine.value != [] {
      assert (head + cuisine.value)[|head|..] == cuisine.value;
      assert (head + "Any")[|head|..] == "Any";
    }
  }

  /** The cooking-time line says "Not specified" exactly when the time is
      absent or zero; any other value, negative ones included, becomes a
      maximum. */
  lemma CookingTimeDefault(cookingTime: Option<int>)
    ensures CookingTimeLine(cookingTime) == "Cooking Time: Not specified"
        <==> cookingTime == None || cookingTime == Some(0)
  {
    if cookingTime.Some? && cookingTime.value != 0 {
      assert CookingTimeLine(cookingTime)[0] == 'M';
    }
  }

  /** The context of `get_recipe_with_parameters`: the parts appended one by
      one, each optional field falling back to its default when absent or
      falsy, then joined with newlines. */
  method BuildContext(ingredients: seq<string>, servings: Option<int>,
                      dietary: Option<seq<string>>, cuisine: Option<string>,
                      cookingTime: Option<int>) returns (context: string)
    ensures context == Join(ContextParts(ingredients, servings, dietary, cuisine, cookingTime), "\n")
  {
    var ingredientsStr := Join(ingredients, ", ");
    var servingsValue := if servings.Some? && servings.value != 0 then servings.value else 2;
    var parts := ["Main Ingredients Available: " + ingredientsStr,
                  "Servings: " + IntToString(servingsValue)];
    assert parts[0] == IngredientsLine(ingredients) && parts[1] == ServingsLine(servings);
    if dietary.Some? && dietary.value != [] {
      parts := parts + ["Dietary Restrictions: " + Join(dietary.value, ", ")];
    } else {
      parts := parts + ["Dietary Restrictions: None specified"];
    }
    assert parts[2] == DietaryLine(dietary);
    if cuisine.Some? && cuisine.value != "" {
      parts := parts + ["Cuisine Preference: " + cuisine.value];
    } else {
      parts := parts + ["Cuisine Preference: Any"];
    }
    assert parts[3] == CuisineLine(cuisine);
    if cookingTime.Some? && cookingTime.value != 0 {
      parts := parts + ["Maximum Cooking Time: " + IntToString(cookingTime.value) + " minutes"];
    } else {
      parts := parts + ["Cooking Time: Not specified"];
    }
    assert parts[4] == CookingTimeLine(cookingTime);
    SameParts(parts, ingredients, servings, dietary, cuisine, cookingTime);
    context := Join(parts, "\n");
  }

  /** Five parts that agree with the context lines one by one are the
      context parts. */
  lemma SameParts(parts: seq<string>, ingredients: seq<string>, servings: Option<int>,
                  dietary: Option<seq<string>>, cuisine: Option<string>,
                  cookingTime: Option<int>)
    requires |parts| == 5
    requires parts[0] == IngredientsLine(ingredients) && parts[1] == ServingsLine(servings)
    requires parts[2] == DietaryLine(dietary) && parts[3] == CuisineLine(cuisine)
    requires parts[4] == CookingTimeLine(cookingTime)
    ensures parts == ContextParts(ingredients, servings, dietary, cuisine, cookingTime)
  {
  }

  /*---------------------------------------------------------------------
    The two request paths, with the completion as an input
   ---------------------------------------------------------------------*/

  /** `get_recipe`: the ingredients are sent joined by ", " and the
      completion is split into title and content. */
  method GetRecipe(ingredients: seq<string>, completion: string)
    returns (ingredientsStr: string, title: string, content: string)
    ensures ingredientsStr == Join(ingredients, ", ")
    ensures title == ExtractTitle(completion)
    ensures content == completion
  {
    ingredientsStr := Join(ingredients, ", ");
    title, content := ExtractRecipeParts(completion);
  }

  /** `get_recipe_with_parameters`: the context is built from the request
      and the completion is split into title and content. */
  method GetRecipeWithParameters(ingredients: seq<string>, servings: Option<int>,
                                 dietary: Option<seq<string>>, cuisine: Option<string>,
                                 cookingTime: Option<int>, completion: string)
    returns (context: string, title: string, content: string)
    ensures context == Join(ContextParts(ingredients, servings, dietary, cuisine, cookingTime), "\n")
    ensures title == ExtractTitle(completion)
    ensures content == completion
  {
    context := BuildContext(ingredients, servings, dietary, cuisine, cookingTime);
    title, content := ExtractRecipeParts(completion);
  }
}
