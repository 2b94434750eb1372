/** The catalogue record the planner consumes (src/models/vegetable.rs). */
module Vegetables {

  datatype Season = Spring | Summer | Autumn | Winter

  datatype SoilType = Clay | Sandy | Loamy | Chalky | Humus

  datatype SunExposure = FullSun | PartialShade | Shade

  datatype Region = Temperate | Mediterranean | Oceanic | Continental | Mountain

  /** The categories as the planner names them when it labels a first placement. */
  datatype Category = Fruit | Produce | Herb | Root | Bulb | Leafy | Pod

  /** One catalogue entry. Companion lists hold identifiers of other entries;
      identifiers that name no entry are allowed and simply never match. */
  datatype Vegetable = Vegetable(
    id: string,
    name: string,
    latinName: string,
    seasons: seq<Season>,
    sunRequirement: seq<SunExposure>,
    soilTypes: seq<SoilType>,
    regions: seq<Region>,
    spacingCm: nat,
    goodCompanions: seq<string>,
    badCompanions: seq<string>,
    beginnerFriendly: bool,
    category: Category)
}
