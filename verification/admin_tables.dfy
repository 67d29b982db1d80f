/** The two hand-written administrative tables of the rule filter
    (biblio-patri.js, lines 44-45), entered verbatim as lookups: a JavaScript
    property read `TABLE[name]` becomes `Some(value)` for a listed name and
    `None` otherwise. Department codes, region codes and the national sentinel
    "FR" share one namespace in the name-to-code table. */
module AdminTables {
  import opened Wrappers

  /** `OLD_REGIONS_TO_DEPARTMENTS[name]`: the departments a historical
      (pre-2016) region contained. */
  function OldRegionDepartments(name: string): (r: Option<seq<string>>)
    ensures r.Some? ==> |r.value| >= 2
    ensures r.Some? ==> forall i :: 0 <= i < |r.value| ==> |r.value[i]| == 2
  {
    match name
    case "Alsace" => Some(["67", "68"])
    case "Aquitaine" => Some(["24", "33", "40", "47", "64"])
    case "Auvergne" => Some(["03", "15", "43", "63"])
    case "Basse-Normandie" => Some(["14", "50", "61"])
    case "Bourgogne" => Some(["21", "58", "71", "89"])
    case "Champagne-Ardenne" => Some(["08", "10", "51", "52"])
    case "Franche-Comté" => Some(["25", "39", "70", "90"])
    case "Haute-Normandie" => Some(["27", "76"])
    case "Languedoc-Roussillon" => Some(["11", "30", "34", "48", "66"])
    case "Limousin" => Some(["19", "23", "87"])
    case "Lorraine" => Some(["54", "55", "57", "88"])
    case "Midi-Pyrénées" => Some(["09", "12", "31", "32", "46", "65", "81", "82"])
    case "Nord-Pas-de-Calais" => Some(["59", "62"])
    case "Picardie" => Some(["02", "60", "80"])
    case "Poitou-Charentes" => Some(["16", "17", "79", "86"])
    case "Rhône-Alpes" => Some(["01", "07", "26", "38", "42", "69", "73", "74"])
    case _ => None
  }

  /** `ADMIN_NAME_TO_CODE_MAP[name]`: the code of a department, of a
      current region, or "FR" for "France". Every code has two characters. */
  function AdminCode(name: string): (r: Option<string>)
    ensures r.Some? ==> |r.value| == 2
  {
    match name
    case "France" => Some("FR")
    case "Ain" => Some("01")
    case "Aisne" => Some("02")
    case "Allier" => Some("03")
    case "Alpes-de-Haute-Provence" => Some("04")
    case "Hautes-Alpes" => Some("05")
    case "Alpes-Maritimes" => Some("06")
    case "Ardèche" => Some("07")
    case "Ardennes" => Some("08")
    case "Ariège" => Some("09")
    case "Aube" => Some("10")
    case "Aude" => Some("11")
    case "Aveyron" => Some("12")
    case "Bouches-du-Rhône" => Some("13")
    case "Calvados" => Some("14")
    case "Cantal" => Some("15")
    case "Charente" => Some("16")
    case "Charente-Maritime" => Some("17")
    case "Cher" => Some("18")
    case "Corrèze" => Some("19")
    case "Corse-du-Sud" => Some("2A")
    case "Haute-Corse" => Some("2B")
    case "Côte-d'Or" => Some("21")
    case "Côtes-d'Armor" => Some("22")
    case "Creuse" => Some("23")
    case "Dordogne" => Some("24")
    case "Doubs" => Some("25")
    case "Drôme" => Some("26")
    case "Eure" => Some("27")
    case "Eure-et-Loir" => Some("28")
    case "Finistère" => Some("29")
    case "Gard" => Some("30")
    case "Haute-Garonne" => Some("31")
    case "Gers" => Some("32")
    case "Gironde" => Some("33")
    case "Hérault" => Some("34")
    case "Ille-et-Vilaine" => Some("35")
    case "Indre" => Some("36")
    case "Indre-et-Loire" => Some("37")
    case "Isère" => Some("38")
    case "Jura" => Some("39")
    case "Landes" => Some("40")
    case "Loir-et-Cher" => Some("41")
    case "Loire" => Some("42")
    case "Haute-Loire" => Some("43")
    case "Loire-Atlantique" => Some("44")
    case "Loiret" => Some("45")
    case "Lot" => Some("46")
    case "Lot-et-Garonne" => Some("47")
    case "Lozère" => Some("48")
    case "Maine-et-Loire" => Some("49")
    case "Manche" => Some("50")
    case "Marne" => Some("51")
    case "Haute-Marne" => Some("52")
    case "Mayenne" => Some("53")
    case "Meurthe-et-Moselle" => Some("54")
    case "Meuse" => Some("55")
    case "Morbihan" => Some("56")
    case "Moselle" => Some("57")
    case "Nièvre" => Some("58")
    case "Nord" => Some("59")
    case "Oise" => Some("60")
    case "Orne" => Some("61")
    case "Pas-de-Calais" => Some("62")
    case "Puy-de-Dôme" => Some("63")
    case "Pyrénées-Atlantiques" => Some("64")
    case "Hautes-Pyrénées" => Some("65")
    case "Pyrénées-Orientales" => Some("66")
    case "Bas-Rhin" => Some("67")
    case "Haut-Rhin" => Some("68")
    case "Rhône" => Some("69")
    case "Haute-Saône" => Some("70")
    case "Saône-et-Loire" => Some("71")
    case "Sarthe" => Some("72")
    case "Savoie" => Some("73")
    case "Haute-Savoie" => Some("74")
    case "Paris" => Some("75")
    case "Seine-Maritime" => Some("76")
    case "Seine-et-Marne" => Some("77")
    case "Yvelines" => Some("78")
    case "Deux-Sèvres" => Some("79")
    case "Somme" => Some("80")
    case "Tarn" => Some("81")
    case "Tarn-et-Garonne" => Some("82")
    case "Var" => Some("83")
    case "Vaucluse" => Some("84")
    case "Vendée" => Some("85")
    case "Vienne" => Some("86")
    case "Haute-Vienne" => Some("87")
    case "Vosges" => Some("88")
    case "Yonne" => Some("89")
    case "Territoire de Belfort" => Some("90")
    case "Essonne" => Some("91")
    case "Hauts-de-Seine" => Some("92")
    case "Seine-Saint-Denis" => Some("93")
    case "Val-de-Marne" => Some("94")
    case "Val-d'Oise" => Some("95")
    case "Auvergne-Rhône-Alpes" => Some("84")
    case "Bourgogne-Franche-Comté" => Some("27")
    case "Bretagne" => Some("53")
    case "Centre-Val de Loire" => Some("24")
    case "Corse" => Some("94")
    case "Grand Est" => Some("44")
    case "Hauts-de-France" => Some("32")
    case "Île-de-France" => Some("11")
    case "Normandie" => Some("28")
    case "Nouvelle-Aquitaine" => Some("75")
    case "Occitanie" => Some("76")
    case "Pays de la Loire" => Some("52")
    case "Provence-Alpes-Côte d'Azur" => Some("93")
    case "Guadeloupe" => Some("01")
    case "Martinique" => Some("02")
    case "Guyane" => Some("03")
    case "La Réunion" => Some("04")
    case "Mayotte" => Some("06")
    case _ => None
  }
}
