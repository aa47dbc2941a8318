/** How the command layer combines the two components: the operator names
    of a stats record are looked up as pictures. */
module Composition {
  import opened Wrappers
  import opened JsValue
  import R6Api
  import OperatorImages

  /** The default operators "Ash" and "Jäger" both have pictures,
      `ash.png` and `jager.png`. */
  lemma DefaultAttackerHasImage()
    ensures OperatorImages.GetOperatorImage(Some(JStr(R6Api.DEFAULT_ATTACKER)))
      == Some(OperatorImages.Image(OperatorImages.ImageUrl("ash"), OperatorImages.ImageUrl("ash")))
  {
    OperatorImages.CaseInsensitive("Ash", "ash");
    OperatorImages.AshExample();
    OperatorImages.ImageOfSlug(Some(JStr(R6Api.DEFAULT_ATTACKER)), "ash");
  }

  lemma DefaultDefenderHasImage()
    ensures OperatorImages.GetOperatorImage(Some(JStr(R6Api.DEFAULT_DEFENDER)))
      == Some(OperatorImages.Image(OperatorImages.ImageUrl("jager"), OperatorImages.ImageUrl("jager")))
  {
    var name := R6Api.DEFAULT_DEFENDER;
    assert name == "J" + "\U{E4}" + "ger";
    OperatorImages.CapitalJagerExample();
    OperatorImages.ImageOfSlug(Some(JStr(name)), "jager");
  }

  /** A record from the live path always names operators that have a
      picture when the service names none. */
  lemma FallbackOperatorsHaveImages(d: JVal, stats: JVal, username: string)
    requires d != JNull && stats != JNull
    requires !Truthy(R6Api.Get(stats, "topAttacker")) && !Truthy(R6Api.Get(stats, "topDefender"))
    ensures OperatorImages.GetOperatorImage(Some(R6Api.MapStats(d, stats, username).topAttackerName)).Some?
    ensures OperatorImages.GetOperatorImage(Some(R6Api.MapStats(d, stats, username).topDefenderName)).Some?
  {
    DefaultAttackerHasImage();
    DefaultDefenderHasImage();
  }
}
