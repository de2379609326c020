/** The colours the tile scripts paint on a renderer, kept abstract: only which
    colour a material shows matters to the board logic, not its RGBA value. */
module Colors {

  datatype Color =
    | Clear            // default(Color): what an uncaptured colour field holds
    | White
    | Cyan             // the highlight colour
    | Paint(id: nat)   // any other material colour a prefab may carry
}
