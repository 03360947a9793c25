/** `type2color`: the outline colour of a hold by its role character. */
module Colors {
  import opened Wrappers

  datatype Color = Blue | Red | Black | Green

  /** The exception raised for a role character outside F, T, O and S. */
  datatype UnknownHoldType = UnknownHoldType(role: char)

  /** F (feet only) is blue, T (top) red, O (on) black, S (start) green;
      anything else raises. */
  function TypeToColor(role: char): (r: Result<Color, UnknownHoldType>)
    ensures r.Success? <==> role in "FTOS"
    ensures r.Failure? ==> r.error == UnknownHoldType(role)
  {
    if role == 'F' then Success(Blue)
    else if role == 'T' then Success(Red)
    else if role == 'O' then Success(Black)
    else if role == 'S' then Success(Green)
    else Failure(UnknownHoldType(role))
  }

  /** The role character each colour stands for. */
  function RoleOf(color: Color): char {
    match color
    case Blue => 'F'
    case Red => 'T'
    case Black => 'O'
    case Green => 'S'
  }

  /** The colouring is one-to-one: a role maps to a colour exactly when it
      is that colour's role character. */
  lemma TypeToColorInverse(role: char, color: Color)
    ensures TypeToColor(role) == Success(color) <==> role == RoleOf(color)
  {
  }
}
