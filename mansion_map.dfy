/** The example mansion that `main` builds, and the sessions it supports. */
module MansionMap {
  import opened Rooms
  import opened Exploration
  import opened Teardown

  /** The mansion as `main` leaves it: nine rooms, three levels below the
      hall, with the leaves Despensa and Cúpula on the third level. */
  const Mansion: Tree :=
    Node("Hall de Entrada",
      Node("Sala de Estar",
        Node("Cozinha", Node("Despensa", Nil, Nil), Nil),
        Node("Sala de Jantar", Nil, Nil)),
      Node("Biblioteca",
        Node("Escritório", Nil, Nil),
        Node("Observatório", Nil, Node("Cúpula", Nil, Nil))))

  /** The map-building part of `main`: create the hall, then attach each
      room to the room reached by the pointer chain the C code writes
      (`hall->esquerda->esquerda = ...` attaches at the walk [Left]). */
  method BuildMansion() returns (hall: Tree)
    ensures hall == Mansion
    ensures Size(hall) == 9 && Height(hall) == 4
  {
    hall := CreateRoom("Hall de Entrada");
    hall := Attach(hall, [], Left, CreateRoom("Sala de Estar"));
    hall := Attach(hall, [], Right, CreateRoom("Biblioteca"));
    hall := Attach(hall, [Left], Left, CreateRoom("Cozinha"));
    hall := Attach(hall, [Left], Right, CreateRoom("Sala de Jantar"));
    hall := Attach(hall, [Right], Left, CreateRoom("Escritório"));
    hall := Attach(hall, [Right], Right, CreateRoom("Observatório"));
    hall := Attach(hall, [Left, Left], Left, CreateRoom("Despensa"));
    hall := Attach(hall, [Right, Right], Right, CreateRoom("Cúpula"));
  }

  /** `main`: build the mansion, explore it with the player's input, then
      free it.  The log fits the 100-slot array for every input, because the
      mansion is only four rooms high. */
  method Play(input: array<Token>) returns (log: seq<string>, reason: Reason, freed: seq<seq<Dir>>)
    ensures Session(log, reason) == Run(Mansion, input[..])
    ensures |log| <= 4 && reason != EmptyMap
    ensures freed == Release(Mansion) && |freed| == 9
  {
    var hall := BuildMansion();
    LogWithinHeight(hall, input[..]);
    var visited, count;
    visited, count, reason := Explore(hall, input);
    log := visited[..count];
    freed := Release(hall);
    ReleaseCount(hall);
  }

  /** Inputs `e`, `e`, `s`: down to Cozinha, then quit. */
  lemma LeftLeftQuit()
    ensures Run(Mansion, [Key('e'), Key('e'), Key('s')]) ==
            Session(["Hall de Entrada", "Sala de Estar", "Cozinha"], Quit)
  {
    var input := [Key('e'), Key('e'), Key('s')];
    assert input[1..] == [Key('e'), Key('s')];
    assert input[1..][1..] == [Key('s')];
    var stop := Stop([Left, Left], ["Hall de Entrada", "Sala de Estar", "Cozinha"], [], Quit);
    assert Walk(Mansion, [Left, Left], ["Hall de Entrada", "Sala de Estar", "Cozinha"], [Key('s')]) == stop;
    assert [Left] + [Left] == [Left, Left];
    assert ["Hall de Entrada", "Sala de Estar"] + ["Cozinha"] == stop.log;
    assert Walk(Mansion, [Left], ["Hall de Entrada", "Sala de Estar"], input[1..]) == stop;
    assert [] + [Left] == [Left];
    assert ["Hall de Entrada"] + ["Sala de Estar"] == ["Hall de Entrada", "Sala de Estar"];
    assert Walk(Mansion, [], ["Hall de Entrada"], input) == stop;
  }

  /** Inputs `d`, `d`, `d`: the walk reaches the leaf Cúpula after four
      rooms and the loop stops there on its own. */
  lemma RightToTheDome()
    ensures Run(Mansion, [Key('d'), Key('d'), Key('d')]) ==
            Session(["Hall de Entrada", "Biblioteca", "Observatório", "Cúpula"], Leaf)
  {
    var input := [Key('d'), Key('d'), Key('d')];
    assert input[1..] == [Key('d'), Key('d')];
    assert input[1..][1..] == [Key('d')];
    var log := ["Hall de Entrada", "Biblioteca", "Observatório", "Cúpula"];
    var stop := Stop([Right, Right, Right], log, [], Leaf);
    assert Walk(Mansion, [Right, Right, Right], log, []) == stop;
    assert [Right, Right] + [Right] == [Right, Right, Right] && log[..3] + [log[3]] == log;
    assert Walk(Mansion, [Right, Right], log[..3], [Key('d')]) == stop;
    assert [Right] + [Right] == [Right, Right] && log[..2] + [log[2]] == log[..3];
    assert Walk(Mansion, [Right], log[..2], input[1..]) == stop;
    assert [] + [Right] == [Right] && log[..1] + [log[1]] == log[..2];
    assert Walk(Mansion, [], log[..1], input) == stop;
  }

  /** At Cozinha, which has no right child, `d` neither moves the cursor nor
      adds to the log. */
  lemma NoRightFromKitchen(rest: seq<Token>)
    ensures At(Mansion, [Left, Left]).name == "Cozinha"
    ensures Walk(Mansion, [Left, Left], ["Hall de Entrada", "Sala de Estar", "Cozinha"], [Key('d')] + rest) ==
            Walk(Mansion, [Left, Left], ["Hall de Entrada", "Sala de Estar", "Cozinha"], rest)
  {
    NoEffectTokenIsSkipped(Mansion, [Left, Left], ["Hall de Entrada", "Sala de Estar", "Cozinha"], Key('d'), rest);
  }

  /** Tearing the mansion down releases its nine rooms, deepest first:
      Despensa first and the hall last. */
  lemma MansionTeardown()
    ensures |Release(Mansion)| == 9
    ensures Release(Mansion)[0] == [Left, Left, Left] && Release(Mansion)[8] == []
  {
  }
}
