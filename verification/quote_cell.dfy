/** The row of the quotes table (`QuoteTableViewCell`): how a quote is turned
    into display strings, a colour for the percentage, and the name of the
    favourite button's image. Colours are tags rather than UIKit colours. */
module QuoteCell {
  import opened Wrappers
  import opened QuoteModel

  datatype Colour = Red | Green | Black

  /** `QuoteTableViewCell.ViewModel`. */
  datatype ViewModel = ViewModel(
    title: string,
    description: string,
    percentage: string,
    percentageColor: Colour,
    isFavourite: bool)

  /** Only the exact strings "red" and "green" select a colour; anything
      else, including no value, is black. */
  function ColourOf(variationColor: Option<string>): (c: Colour)
    ensures c == Red <==> variationColor == Some("red")
    ensures c == Green <==> variationColor == Some("green")
    ensures c == Black <==> variationColor != Some("red") && variationColor != Some("green")
  {
    if variationColor == Some("red") then Red
    else if variationColor == Some("green") then Green
    else Black
  }

  /** `ViewModel.init(quote:)`. The description is the price, then a space
      and the currency when a non-empty currency is present. */
  function MakeViewModel(q: Quote): (vm: ViewModel)
    ensures q.name.Some? ==> vm.title == q.name.value
    ensures q.name.None? ==> vm.title == ""
    ensures |vm.description| ==
              |q.last.GetOr("")| + (if q.currency.GetOr("") == "" then 0 else 1 + |q.currency.value|)
    ensures vm.description[..|q.last.GetOr("")|] == q.last.GetOr("")
    ensures q.currency.GetOr("") == "" ==> vm.description == q.last.GetOr("")
    ensures q.currency.GetOr("") != "" ==>
              vm.description[|q.last.GetOr("")|..] == [' '] + q.currency.value
    ensures q.readableLastChangePercent.Some? ==> vm.percentage == q.readableLastChangePercent.value
    ensures q.readableLastChangePercent.None? ==> vm.percentage == ""
    ensures vm.percentageColor == ColourOf(q.variationColor)
    ensures vm.isFavourite <==> q.isFavourite == Some(true)
  {
    var currency := q.currency.GetOr("");
    ViewModel(
      q.name.GetOr(""),
      q.last.GetOr("") + (if currency == "" then "" else " " + currency),
      q.readableLastChangePercent.GetOr(""),
      ColourOf(q.variationColor),
      q.isFavourite.GetOr(false))
  }

  /** The favourite button's image chosen in `configure(with:)`. */
  function ImageName(vm: ViewModel): (name: string)
    ensures name == "favorite" <==> vm.isFavourite
    ensures !vm.isFavourite ==> name == "no-favorite"
  {
    if vm.isFavourite then "favorite" else "no-favorite"
  }

  /** The favourite flag changes the button image and nothing else in the row. */
  lemma FavouriteFlagOnlyChangesImage(q: Quote, flag: Option<bool>)
    ensures MakeViewModel(q.(isFavourite := flag)).(isFavourite := false) == MakeViewModel(q).(isFavourite := false)
    ensures ImageName(MakeViewModel(q.(isFavourite := flag))) == "favorite" <==> flag == Some(true)
  {
  }
}
